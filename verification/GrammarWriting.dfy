/** Writing grammar text: what layout, names and literals look like, and that they are read as such. */
module GrammarWriting {
  import opened GrammarText
  import opened GrammarUtf8
  import opened GrammarLanguage
  import opened GrammarMeaning
  import opened GrammarSpelling

  // ----- layout -----

  /** A comment from its mark up to the end of its line or of the text. */
  predicate IsComment(src: string, p: nat, e: nat)
  {
    p < e && At(src, p) == '#' && At(src, e) in "\0\r\n" && forall k {:trigger At(src, k)} :: p < k < e ==> At(src, k) !in "\0\r\n"
  }

  /** Between the places there are only blanks and comments, and line ends where they are allowed. */
  ghost predicate IsLayout(src: string, p: nat, q: nat, newlineOk: bool)
    decreases q - p
  {
    p == q
    || (p < q && (At(src, p) in " \t" || (newlineOk && At(src, p) in "\r\n")) && IsLayout(src, p + 1, q, newlineOk))
    || exists e: nat {:trigger IsComment(src, p, e)} :: p < e <= q && IsComment(src, p, e) && IsLayout(src, e, q, newlineOk)
  }

  predicate IsInk(c: char, newlineOk: bool)
  {
    c !in " \t#" && (newlineOk ==> c !in "\r\n")
  }

  lemma {:induction false} CommentEndIs(src: string, p: nat, hash: nat)
    requires p <= |src| && hash < p && At(src, hash) == '#'
    requires forall k {:trigger At(src, k)} :: hash < k < p ==> At(src, k) !in "\0\r\n"
    ensures IsComment(src, hash, CommentEnd(src, p))
    decreases |src| - p
  {
    if At(src, p) !in "\0\r\n" {
      CommentEndIs(src, p + 1, hash);
    }
  }

  lemma CommentUnique(src: string, p: nat, e: nat, e': nat)
    requires IsComment(src, p, e) && IsComment(src, p, e')
    ensures e == e'
  {
    assert e < e' ==> At(src, e) !in "\0\r\n";
    assert e' < e ==> At(src, e') !in "\0\r\n";
  }

  /** What is skipped is layout, and what is not layout stops it. */
  lemma {:induction false} SpaceIsLayout(src: string, p: nat, newlineOk: bool)
    requires p <= |src|
    ensures IsLayout(src, p, Space(src, p, newlineOk), newlineOk) && IsInk(At(src, Space(src, p, newlineOk)), newlineOk)
    decreases |src| - p
  {
    if At(src, p) == '#' {
      CommentEndIs(src, p + 1, p);
      SpaceIsLayout(src, CommentEnd(src, p + 1), newlineOk);
    } else if IsBlank(At(src, p), newlineOk) {
      SpaceIsLayout(src, p + 1, newlineOk);
    }
  }

  /** All layout in front of something else is skipped. */
  lemma {:induction false} LayoutIsSkipped(src: string, p: nat, q: nat, newlineOk: bool)
    requires p <= q <= |src| && IsLayout(src, p, q, newlineOk) && IsInk(At(src, q), newlineOk)
    ensures Space(src, p, newlineOk) == q
    decreases q - p
  {
    if p < q {
      if e: nat :| p < e <= q && IsComment(src, p, e) && IsLayout(src, e, q, newlineOk) {
        LayoutIsSkipped(src, e, q, newlineOk);
        CommentEndIs(src, p + 1, p);
        CommentUnique(src, p, e, CommentEnd(src, p + 1));
      } else {
        LayoutIsSkipped(src, p + 1, q, newlineOk);
      }
    }
  }

  // ----- names -----

  /** The bytes of letters, digits and the hyphen (ASCII). */
  predicate IsNameByte(b: int)
  {
    97 <= b <= 122 || 65 <= b <= 90 || 48 <= b <= 57 || b == 45
  }

  lemma WordChars(c: char)
    ensures IsWordChar(c) <==> IsNameByte(c as int)
  {}

  /** A name in front of anything else is read whole. */
  lemma {:induction false} NameIsRead(src: string, p: nat, q: nat)
    requires p <= q <= |src| && !IsNameByte(At(src, q) as int)
    requires forall k {:trigger At(src, k)} :: p <= k < q ==> IsNameByte(At(src, k) as int)
    ensures NameEnd(src, p) == q
    decreases q - p
  {
    WordChars(At(src, p));
    if p < q {
      NameIsRead(src, p + 1, q);
    }
  }

  // ----- literals -----

  function Joined(texts: seq<string>): string
  {
    if texts == [] then [] else Joined(texts[..|texts| - 1]) + texts[|texts| - 1]
  }

  /** Each text is a way to write the code point in its place, and none is a bare quote. */
  ghost predicate WritesWord(texts: seq<string>, word: Word)
  {
    |texts| == |word| && forall i {:trigger texts[i]} :: 0 <= i < |texts| ==> Writes(texts[i], word[i]) && texts[i] != "\""
  }

  lemma WritesNoQuote(text: string, cp: nat)
    requires Writes(text, cp) && text != "\""
    ensures text != [] && text[0] != '"'
  {
    hide IsHex, Pow16;
    if |text| > 1 && text[..2] == ['\\', text[1]] {
      assert text[0] == text[..2][0];
    }
  }

  /** However a word is written, character by character, it is read back. */
  lemma {:induction false} WordReadsBack(src: string, p: nat, texts: seq<string>, word: Word)
    requires WritesWord(texts, word) && p + |Joined(texts)| <= |src| && src[p..p + |Joined(texts)|] == Joined(texts)
    ensures CharsSpelled(src, p, p + |Joined(texts)|, word)
    decreases |texts|
  {
    hide Writes, ReadChar;
    if texts != [] {
      var n := |texts| - 1;
      var init, last := Joined(texts[..n]), texts[n];
      var m, q := p + |init|, p + |Joined(texts)|;
      assert src[p..m] == src[p..q][..|init|] && src[m..q] == src[p..q][|init|..];
      assert src[m..m + |last|] == last;
      WordReadsBack(src, p, texts[..n], word[..n]);
      WrittenReadsBack(src, m, last, word[n]);
      WritesNoQuote(last, word[n]);
      assert At(src, m) == src[m..q][0];
    }
  }

  /** A literal, however it is written, is an item that stands for its word. */
  lemma LiteralReadsBack(src: string, p: nat, texts: seq<string>, word: Word, nested: bool)
    requires var text := "\"" + Joined(texts) + "\"";
      WritesWord(texts, word) && p + |text| <= |src| && src[p..p + |text|] == text
    ensures ItemSpelled(src, p, Space(src, p + |Joined(texts)| + 2, nested), Literal(word), nested)
  {
    hide WritesWord, CharsSpelled, Space;
    var inner := Joined(texts);
    var text := "\"" + inner + "\"";
    assert src[p] == text[0] && src[p + 1 + |inner|] == text[|text| - 1];
    assert text[1..][..|inner|] == inner;
    assert src[p + 1..p + 1 + |inner|] == src[p..p + |text|][1..][..|inner|];
    WordReadsBack(src, p + 1, texts, word);
  }
}
