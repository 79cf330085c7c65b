/** Splitting text into the longest known pieces, and joining pieces into text again. Characters stand for bytes. */
module SentencePiece {
  import opened Codepoints

  /** U+2581 in UTF-8: stands for a space in pieces. */
  const MARK: string := [0xE2 as char, 0x96 as char, 0x81 as char]

  predicate IsControl(piece: string)
  {
    piece == "<unk>" || piece == "<s>" || piece == "</s>" || piece == "[BLANK]"
  }

  predicate IsSpace(c: char)
  {
    c == ' ' || 9 <= c as int <= 13
  }

  predicate Marked(s: string)
  {
    MARK <= s
  }

  // ----- normalizing -----

  function SpacesMarked(text: string): string
  {
    if text == [] then [] else (if IsSpace(text[0]) then MARK else [text[0]]) + SpacesMarked(text[1..])
  }

  lemma {:induction false} MarkedNext(text: string, c: char)
    ensures SpacesMarked(text + [c]) == SpacesMarked(text) + (if IsSpace(c) then MARK else [c])
  {
    if text == [] {
      assert SpacesMarked([c]) == (if IsSpace(c) then MARK else [c]) + SpacesMarked([]);
    } else {
      assert (text + [c])[1..] == text[1..] + [c];
      MarkedNext(text[1..], c);
    }
  }

  function Normalized(text: string): string
  {
    MARK + SpacesMarked(text)
  }

  method Normalize(text: string) returns (normalized: string)
    ensures normalized == Normalized(text)
  {
    normalized := MARK;
    for i := 0 to |text|
      invariant normalized == MARK + SpacesMarked(text[..i])
    {
      MarkedNext(text[..i], text[i]);
      assert text[..i + 1] == text[..i] + [text[i]];
      if IsSpace(text[i]) {
        normalized := normalized + MARK;
      } else {
        normalized := normalized + [text[i]];
      }
    }
    assert text[..|text|] == text;
  }

  // ----- the vocabulary -----

  datatype Vocab = Vocab(tokenToId: map<string, int>, idToToken: map<int, string>, maxLength: nat, unk: int)

  /** Numbers lead back to their pieces, and no piece but a control one exceeds the recorded length. */
  ghost predicate ValidVocab(v: Vocab)
  {
    forall w {:trigger v.tokenToId[w]} :: w in v.tokenToId ==>
      && v.tokenToId[w] in v.idToToken && v.idToToken[v.tokenToId[w]] == w
      && (!IsControl(w) ==> |w| <= v.maxLength)
  }

  /** Each number leads to its word. */
  ghost predicate ById(idToToken: map<int, string>, words: seq<string>)
  {
    forall i {:trigger idToToken[i]} :: 0 <= i < |words| ==> i in idToToken && idToToken[i] == words[i]
  }

  method LoadVocab(words: seq<string>) returns (v: Vocab)
    ensures ValidVocab(v)
    ensures forall w {:trigger w in v.tokenToId} :: w in v.tokenToId <==> w in words || w == "[BLANK]"
    ensures ById(v.idToToken, words)
    ensures v.tokenToId["[BLANK]"] == |words| && v.unk == if "<unk>" in words then v.tokenToId["<unk>"] else 0
  {
    var tokenToId: map<string, int>, idToToken: map<int, string>, maxLength: nat := map[], map[], 0;
    for i := 0 to |words|
      invariant forall w {:trigger w in tokenToId} :: w in tokenToId <==> w in words[..i]
      invariant ById(idToToken, words[..i])
      invariant forall w {:trigger tokenToId[w]} :: w in tokenToId ==>
        tokenToId[w] < i && tokenToId[w] in idToToken && idToToken[tokenToId[w]] == w && |w| <= maxLength
    {
      tokenToId := tokenToId[words[i] := i];
      idToToken := idToToken[i := words[i]];
      if |words[i]| > maxLength {
        maxLength := |words[i]|;
      }
      assert words[..i + 1] == words[..i] + [words[i]];
    }
    assert words[..|words|] == words;
    var blank := |words|;
    idToToken := idToToken[blank := "[BLANK]"];
    tokenToId := tokenToId["[BLANK]" := blank];
    v := Vocab(tokenToId, idToToken, maxLength, if "<unk>" in tokenToId then tokenToId["<unk>"] else 0);
  }

  predicate IsPiece(v: Vocab, w: string)
  {
    w in v.tokenToId && !IsControl(w)
  }

  // ----- tokenizing -----

  /** The length of the longest piece at the start of `s` of at most `n` bytes, 0 if there is none. */
  function Longest(v: Vocab, s: string, n: nat): (l: nat)
    requires n <= |s|
    ensures l <= n && (l > 0 ==> IsPiece(v, s[..l]))
    ensures forall k {:trigger s[..k]} :: l < k <= n ==> !IsPiece(v, s[..k])
  {
    if n == 0 then 0 else if IsPiece(v, s[..n]) then n else Longest(v, s, n - 1)
  }

  function Cap(v: Vocab, s: string): (n: nat)
    ensures n <= |s|
  {
    if v.maxLength < |s| then v.maxLength else |s|
  }

  /** The cap on lengths does not hide a longer piece. */
  lemma LongestOfAll(v: Vocab, s: string)
    requires ValidVocab(v)
    ensures var l := Longest(v, s, Cap(v, s));
      forall k {:trigger s[..k]} :: l < k <= |s| ==> !IsPiece(v, s[..k])
  {
    forall k {:trigger s[..k]} | Cap(v, s) < k <= |s| ensures !IsPiece(v, s[..k]) {
      if s[..k] in v.tokenToId {
        assert v.tokenToId[s[..k]] == v.tokenToId[s[..k]];
      }
    }
  }

  function CodepointLength(c: char): (n: nat)
    ensures 1 <= n <= 4
  {
    var b := c as int % 256;
    if b < 0x80 then 1 else if 0xC0 <= b < 0xE0 then 2 else if 0xE0 <= b < 0xF0 then 3 else if 0xF0 <= b < 0xF8 then 4 else 1
  }

  function Skip(s: string): (n: nat)
    requires s != []
    ensures 1 <= n <= |s|
  {
    if CodepointLength(s[0]) <= |s| then CodepointLength(s[0]) else |s|
  }

  /** The tokens of `s`: the longest piece each time, and the unknown token for a code point that starts none. */
  function Tokens(v: Vocab, s: string): seq<int>
    decreases |s|
  {
    if s == [] then []
    else
      var l := Longest(v, s, Cap(v, s));
      if l > 0 then [v.tokenToId[s[..l]]] + Tokens(v, s[l..])
      else (if v.unk >= 0 then [v.unk] else []) + Tokens(v, s[Skip(s)..])
  }

  /** Every step finds a piece. */
  predicate Covered(v: Vocab, s: string)
    decreases |s|
  {
    s == [] || (var l := Longest(v, s, Cap(v, s)); l > 0 && Covered(v, s[l..]))
  }

  /** Tries the lengths from the longest down. */
  method FindLongest(v: Vocab, normalized: string, i: nat) returns (len: nat)
    requires i < |normalized|
    ensures len == Longest(v, normalized[i..], Cap(v, normalized[i..])) && i + len <= |normalized|
  {
    ghost var s := normalized[i..];
    var remaining := |normalized| - i;
    len := if v.maxLength < remaining then v.maxLength else remaining;
    while len > 0
      invariant len <= Cap(v, s) && Longest(v, s, len) == Longest(v, s, Cap(v, s))
      decreases len
    {
      assert normalized[i..i + len] == s[..len];
      if normalized[i..i + len] in v.tokenToId && !IsControl(normalized[i..i + len]) {
        break;
      }
      len := len - 1;
    }
  }

  method Tokenize(v: Vocab, text: string) returns (tokens: seq<int>)
    ensures tokens == Tokens(v, Normalized(text))
  {
    hide Longest, Cap, IsControl, Normalized, CodepointLength;
    tokens := [];
    var normalized := Normalize(text);
    var i := 0;
    assert normalized[0..] == normalized;
    while i < |normalized|
      invariant i <= |normalized| && tokens + Tokens(v, normalized[i..]) == Tokens(v, normalized)
      decreases |normalized| - i
    {
      ghost var s, before := normalized[i..], tokens;
      var len := FindLongest(v, normalized, i);
      FoundPiece(v, s, len);
      if len > 0 {
        assert normalized[i..i + len] == s[..len] && s[len..] == normalized[i + len..];
        tokens := tokens + [v.tokenToId[normalized[i..i + len]]];
        i := i + len;
      } else {
        var n := CodepointLength(normalized[i]);
        if v.unk >= 0 {
          tokens := tokens + [v.unk];
        }
        i := if i + n <= |normalized| then i + n else |normalized|;
        assert s[Skip(s)..] == normalized[i..];
      }
      TokensStep(v, s, before, tokens, normalized[i..]);
    }
    assert normalized[i..] == [];
  }

  lemma FoundPiece(v: Vocab, s: string, len: nat)
    requires len == Longest(v, s, Cap(v, s))
    ensures len <= |s| && (len > 0 ==> s[..len] in v.tokenToId)
  {}

  lemma TokensStep(v: Vocab, s: string, before: seq<int>, after: seq<int>, rest: string)
    requires s != []
    requires var l := Longest(v, s, Cap(v, s));
      && (l > 0 ==> after == before + [v.tokenToId[s[..l]]] && rest == s[l..])
      && (l == 0 ==> after == before + (if v.unk >= 0 then [v.unk] else []) && rest == s[Skip(s)..])
    ensures after + Tokens(v, rest) == before + Tokens(v, s)
  {
    hide Longest, Cap;
  }

  // ----- joining -----

  function Pieces(v: Vocab, tokens: seq<int>): seq<string>
  {
    if tokens == [] then []
    else [if tokens[0] in v.idToToken then v.idToToken[tokens[0]] else []] + Pieces(v, tokens[1..])
  }

  function Flat(pieces: seq<string>): string
  {
    if pieces == [] then [] else pieces[0] + Flat(pieces[1..])
  }

  /** With every step covered, the tokens' pieces are the normalized text, and none is a control piece. */
  lemma {:induction false} PiecesOfTokens(v: Vocab, s: string)
    requires ValidVocab(v) && Covered(v, s)
    ensures Flat(Pieces(v, Tokens(v, s))) == s
    ensures forall p {:trigger p in Pieces(v, Tokens(v, s))} :: p in Pieces(v, Tokens(v, s)) ==> IsPiece(v, p)
    decreases |s|
  {
    if s != [] {
      var l := Longest(v, s, Cap(v, s));
      var w, rest := s[..l], s[l..];
      assert Tokens(v, s) == [v.tokenToId[w]] + Tokens(v, rest) && IsPiece(v, w);
      hide Longest, Cap, Tokens, IsControl;
      PiecesOfTokens(v, rest);
      hide Covered;
      FirstPiece(v, w, Tokens(v, rest));
      assert ([w] + Pieces(v, Tokens(v, rest)))[1..] == Pieces(v, Tokens(v, rest));
      assert w + rest == s;
    }
  }

  lemma FirstPiece(v: Vocab, w: string, tokens: seq<int>)
    requires ValidVocab(v) && w in v.tokenToId
    ensures Pieces(v, [v.tokenToId[w]] + tokens) == [w] + Pieces(v, tokens)
  {
    var all := [v.tokenToId[w]] + tokens;
    assert v.idToToken[v.tokenToId[w]] == w;
    assert all[1..] == tokens;
  }

  /** A space for each mark. */
  function Unmark(s: string): string
  {
    if s == [] then [] else if Marked(s) then " " + Unmark(s[3..]) else [s[0]] + Unmark(s[1..])
  }

  function DropMarks(s: string): string
  {
    if Marked(s) then DropMarks(s[3..]) else s
  }

  /** The text of a piece; the first text to appear loses the marks before it. */
  function PieceText(piece: string, first: bool): string
  {
    if IsControl(piece) then [] else Unmark(if first then DropMarks(piece) else piece)
  }

  lemma {:induction false} NoTextYet(s: string)
    ensures Unmark(DropMarks(s)) == [] <==> DropMarks(s) == []
  {}

  /** What is still to come of a piece. */
  function Rest(first: bool, text: string, s: string): string
  {
    Unmark(if first && text == [] then DropMarks(s) else s)
  }

  lemma StepOverMark(first: bool, text: string, s: string)
    requires Marked(s)
    ensures var t := if !first || text != [] then text + " " else text;
      t + Rest(first, t, s[3..]) == text + Rest(first, text, s)
  {}

  lemma StepOverByte(first: bool, text: string, s: string)
    requires s != [] && !Marked(s)
    ensures var t := text + [s[0]];
      t + Rest(first, t, s[1..]) == text + Rest(first, text, s)
  {
    hide Marked;
  }

  method PieceToText(piece: string, first: bool) returns (text: string)
    ensures text == PieceText(piece, first)
  {
    if IsControl(piece) {
      return "";
    }
    assert Rest(first, "", piece) == PieceText(piece, first);
    hide Unmark, DropMarks, IsControl, Marked, Rest;
    text := "";
    var pos := 0;
    assert piece[0..] == piece;
    while pos < |piece|
      invariant pos <= |piece| && text + Rest(first, text, piece[pos..]) == PieceText(piece, first)
      decreases |piece| - pos
    {
      ghost var s := piece[pos..];
      MarkAt(piece, pos);
      if pos + 3 <= |piece| && piece[pos..pos + 3] == MARK {
        StepOverMark(first, text, s);
        if !first || text != [] {
          text := text + " ";
        }
        pos := pos + 3;
        assert s[3..] == piece[pos..];
      } else {
        StepOverByte(first, text, s);
        text := text + [piece[pos]];
        pos := pos + 1;
        assert s[1..] == piece[pos..];
      }
    }
    assert piece[pos..] == [];
    NothingLeft(first, text);
  }

  lemma NothingLeft(first: bool, text: string)
    ensures Rest(first, text, []) == []
  {
    assert DropMarks([]) == [] && Unmark([]) == [];
  }

  lemma MarkAt(piece: string, pos: nat)
    requires pos <= |piece|
    ensures Marked(piece[pos..]) <==> pos + 3 <= |piece| && piece[pos..pos + 3] == MARK
  {
    if pos + 3 <= |piece| {
      assert piece[pos..][..3] == piece[pos..pos + 3];
    }
  }

  /** All texts after one another, as they are delivered. */
  function Join(text: string, pieces: seq<string>): string
    decreases |pieces|
  {
    if pieces == [] then text else Join(text + PieceText(pieces[0], text == []), pieces[1..])
  }

  method Detokenize(v: Vocab, tokens: seq<int>) returns (text: string)
    ensures text == Join([], Pieces(v, tokens))
  {
    text := [];
    assert tokens[0..] == tokens;
    for i := 0 to |tokens|
      invariant Join(text, Pieces(v, tokens[i..])) == Join([], Pieces(v, tokens))
    {
      var piece := if tokens[i] in v.idToToken then v.idToToken[tokens[i]] else [];
      assert tokens[i..][1..] == tokens[i + 1..];
      assert Pieces(v, tokens[i..])[1..] == Pieces(v, tokens[i + 1..]);
      var more := PieceToText(piece, text == []);
      text := text + more;
    }
    assert tokens[|tokens|..] == [];
  }

  // ----- UTF-8 keeps marks whole -----

  /** No mark begins in `s` without ending in it. */
  predicate Closed(s: string)
  {
    && (|s| >= 1 ==> s[|s| - 1] != MARK[0])
    && (|s| >= 2 ==> !(s[|s| - 2] == MARK[0] && s[|s| - 1] == MARK[1]))
  }

  lemma {:induction false} WholeIsClosed(s: string)
    requires WholeCodepoints(s)
    ensures Closed(s)
    decreases |s|
  {
    if s != [] {
      var n := LeadLength(s[0]);
      var rest := s[n..];
      WholeIsClosed(rest);
      if |rest| >= 2 {
        assert s[|s| - 1] == rest[|rest| - 1] && s[|s| - 2] == rest[|rest| - 2];
      } else if |rest| == 1 {
        assert s[|s| - 1] == rest[0];
        assert n > 1 ==> IsContinuation(s[n - 1]);
        assert LeadLength(rest[0]) == 1;
      } else {
        assert n > 1 ==> IsContinuation(s[n - 1]);
        assert n > 2 ==> IsContinuation(s[n - 2]);
      }
    }
  }

  lemma {:induction false} UnmarkConcat(a: string, b: string)
    requires Closed(a)
    ensures Unmark(a + b) == Unmark(a) + Unmark(b)
    decreases |a|
  {
    if a == [] {
      assert a + b == b;
    } else {
      MarkedConcat(a, b);
      var n := if Marked(a) then 3 else 1;
      assert (a + b)[n..] == a[n..] + b;
      ClosedTail(a, n);
      UnmarkConcat(a[n..], b);
      hide Marked;
      assert (a + b)[0] == a[0];
    }
  }

  lemma MarkedConcat(a: string, b: string)
    requires Closed(a) && a != []
    ensures Marked(a + b) <==> Marked(a)
  {
    if Marked(a + b) {
      assert (a + b)[0] == MARK[0] && (a + b)[1] == MARK[1];
      assert |a| >= 3;
    }
  }

  lemma ClosedTail(a: string, n: nat)
    requires Closed(a) && n <= |a|
    ensures Closed(a[n..])
  {}

  lemma {:induction false} DropClosed(s: string)
    requires Closed(s)
    ensures Closed(DropMarks(s))
    decreases |s|
  {
    if Marked(s) {
      ClosedTail(s, 3);
      DropClosed(s[3..]);
    }
  }

  lemma {:induction false} DropConcat(a: string, b: string)
    requires Closed(a)
    ensures DropMarks(a + b) == if DropMarks(a) == [] then DropMarks(b) else DropMarks(a) + b
    decreases |a|
  {
    if a == [] {
      assert a + b == b;
    } else {
      MarkedConcat(a, b);
      if Marked(a) {
        assert (a + b)[3..] == a[3..] + b;
        ClosedTail(a, 3);
        DropConcat(a[3..], b);
      }
    }
  }

  ghost predicate Joinable(pieces: seq<string>)
  {
    forall p {:trigger p in pieces} :: p in pieces ==> Closed(p) && !IsControl(p)
  }

  /** Joining pieces is joining their bytes, as long as no mark is split between two. */
  lemma {:induction false} JoinIsUnmark(text: string, pieces: seq<string>)
    requires Joinable(pieces)
    ensures Join(text, pieces) == text + Unmark(if text == [] then DropMarks(Flat(pieces)) else Flat(pieces))
    decreases |pieces|
  {
    if pieces != [] {
      var p, rest := pieces[0], pieces[1..];
      assert p in pieces && forall q :: q in rest ==> q in pieces;
      var more := PieceText(p, text == []);
      JoinIsUnmark(text + more, rest);
      assert Join(text, pieces) == Join(text + more, rest);
      hide Closed, Unmark, DropMarks, Join;
      JoinStep(text, p, more, Flat(rest));
    } else {
      assert Unmark([]) == [] && DropMarks([]) == [];
    }
  }

  lemma JoinStep(text: string, p: string, more: string, flat: string)
    requires Closed(p) && !IsControl(p) && more == PieceText(p, text == [])
    ensures (text + more) + Unmark(if text + more == [] then DropMarks(flat) else flat) ==
      text + Unmark(if text == [] then DropMarks(p + flat) else p + flat)
  {
    hide Closed, Unmark, DropMarks;
    if text == [] {
      DropConcat(p, flat);
      NoTextYet(p);
      DropClosed(p);
      UnmarkConcat(DropMarks(p), flat);
      assert more == [] ==> text + more == [];
    } else {
      UnmarkConcat(p, flat);
    }
  }

  // ----- the round trip -----

  /** A space for each white-space byte and each mark. */
  function Spaced(text: string): string
  {
    if text == [] then []
    else if IsSpace(text[0]) then " " + Spaced(text[1..])
    else if Marked(text) then " " + Spaced(text[3..])
    else [text[0]] + Spaced(text[1..])
  }

  /** The text from its first byte on that is neither white space nor part of a mark. */
  function Trimmed(text: string): string
  {
    if text != [] && IsSpace(text[0]) then Trimmed(text[1..])
    else if Marked(text) then Trimmed(text[3..])
    else text
  }

  /** The first byte of marked text is the text's own, or that of a mark. */
  lemma FirstInNormal(text: string)
    ensures text == [] <==> SpacesMarked(text) == []
    ensures text != [] ==> SpacesMarked(text)[0] == if IsSpace(text[0]) then MARK[0] else text[0]
  {}

  lemma MarkedBytes(s: string)
    ensures Marked(s) <==> |s| >= 3 && s[0] == MARK[0] && s[1] == MARK[1] && s[2] == MARK[2]
  {
    if |s| >= 3 {
      assert s[..3] == [s[0], s[1], s[2]];
    }
  }

  lemma MarkInNormal(text: string)
    requires text != [] && !IsSpace(text[0])
    ensures Marked(SpacesMarked(text)) <==> Marked(text)
    ensures Marked(text) ==> SpacesMarked(text)[3..] == SpacesMarked(text[3..])
  {
    hide SpacesMarked, Marked;
    var t1, s1 := text[1..], SpacesMarked(text[1..]);
    PlainInNormal(text);
    MarkedBytes(text);
    MarkedBytes(SpacesMarked(text));
    FirstInNormal(t1);
    if t1 != [] && !IsSpace(t1[0]) {
      var t2, s2 := t1[1..], SpacesMarked(t1[1..]);
      PlainInNormal(t1);
      FirstInNormal(t2);
      if t2 != [] && !IsSpace(t2[0]) {
        PlainInNormal(t2);
        assert t2[1..] == text[3..];
      }
    }
  }

  lemma SpaceInNormal(text: string)
    requires text != [] && IsSpace(text[0])
    ensures Marked(SpacesMarked(text)) && SpacesMarked(text)[3..] == SpacesMarked(text[1..])
  {}

  lemma PlainInNormal(text: string)
    requires text != [] && !IsSpace(text[0])
    ensures SpacesMarked(text) != [] && SpacesMarked(text)[0] == text[0] && SpacesMarked(text)[1..] == SpacesMarked(text[1..])
  {}

  lemma {:induction false} UnmarkNormal(text: string)
    ensures Unmark(SpacesMarked(text)) == Spaced(text)
    decreases |text|
  {
    if text != [] {
      if IsSpace(text[0]) {
        SpaceInNormal(text);
        UnmarkNormal(text[1..]);
      } else {
        MarkInNormal(text);
        PlainInNormal(text);
        UnmarkNormal(if Marked(text) then text[3..] else text[1..]);
      }
      hide SpacesMarked, Marked;
    }
  }

  lemma {:induction false} DropNormal(text: string)
    ensures DropMarks(SpacesMarked(text)) == SpacesMarked(Trimmed(text))
    decreases |text|
  {
    if text != [] {
      if IsSpace(text[0]) {
        SpaceInNormal(text);
        DropNormal(text[1..]);
      } else {
        MarkInNormal(text);
        if Marked(text) {
          DropNormal(text[3..]);
        }
      }
      hide SpacesMarked;
    }
  }

  /** If every step finds a piece, text comes back without its leading white space, all other white space as spaces. */
  lemma RoundTrip(v: Vocab, text: string)
    requires ValidVocab(v) && Covered(v, Normalized(text))
    requires forall w {:trigger w in v.tokenToId} :: w in v.tokenToId ==> WholeCodepoints(w)
    ensures Join([], Pieces(v, Tokens(v, Normalized(text)))) == Spaced(Trimmed(text))
  {
    hide Covered, ValidVocab, Tokens, Closed, Unmark, DropMarks, SpacesMarked, Join, WholeCodepoints;
    var pieces := Pieces(v, Tokens(v, Normalized(text)));
    PiecesOfTokens(v, Normalized(text));
    forall p {:trigger p in pieces} | p in pieces ensures Closed(p) && !IsControl(p) {
      WholeIsClosed(p);
    }
    JoinIsUnmark([], pieces);
    MarkFirst(SpacesMarked(text));
    DropNormal(text);
    UnmarkNormal(Trimmed(text));
  }

  lemma MarkFirst(s: string)
    ensures DropMarks(MARK + s) == DropMarks(s)
  {
    assert (MARK + s)[3..] == s;
  }
}
