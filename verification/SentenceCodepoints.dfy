/** Tokenizing and joining, told in code points: what the byte-level rules mean for valid text. */
module SentenceCodepoints {
  import opened Codepoints
  import opened SentencePiece

  lemma MarkIsCodepoint()
    ensures MARK == Utf8Text(0x2581)
  {}

  // ----- white space -----

  /** The white space of the C locale. */
  predicate IsWhite(c: string)
  {
    |c| == 1 && c[0] in " \t\n\r\U{0b}\U{0c}"
  }

  lemma WhiteIsSpace(c: char)
    ensures IsSpace(c) <==> IsWhite([c])
  {}

  /** The code point with white space and marks shown as a space. */
  function Shown(c: string): string
  {
    if IsWhite(c) || c == Utf8Text(0x2581) then " " else c
  }

  function AllShown(parts: seq<string>): seq<string>
  {
    seq(|parts|, i requires 0 <= i < |parts| => Shown(parts[i]))
  }

  function DropBlank(parts: seq<string>): seq<string>
  {
    if parts != [] && Shown(parts[0]) == " " then DropBlank(parts[1..]) else parts
  }

  lemma AllValidTail(parts: seq<string>)
    requires AllValid(parts) && parts != []
    ensures ValidCodepoint(parts[0]) && AllValid(parts[1..])
  {
    hide ValidCodepoint;
    assert forall i {:trigger parts[1..][i]} :: 0 <= i < |parts[1..]| ==> parts[1..][i] == parts[i + 1];
  }

  /** No byte of another code point is white space, and no mark starts inside or at it. */
  lemma PlainBytes(c: string, rest: string, k: nat)
    requires ValidCodepoint(c) && !IsWhite(c) && c != MARK && k < |c|
    ensures !IsSpace((c + rest)[k]) && !Marked((c + rest)[k..])
  {
    var s := (c + rest)[k..];
    assert s[0] == c[k];
    if |c| == 1 {
      assert c == [c[0]];
      WhiteIsSpace(c[0]);
    }
    if |s| >= 3 && k == 0 && |c| == 3 {
      assert s[..3] == c;
    }
  }

  lemma {:induction false} SpacedBytes(c: string, rest: string, k: nat)
    requires ValidCodepoint(c) && !IsWhite(c) && c != MARK && k <= |c|
    ensures Spaced((c + rest)[k..]) == c[k..] + Spaced(rest)
    decreases |c| - k
  {
    hide ValidCodepoint, IsWhite, Marked, IsSpace, Spaced;
    if k == |c| {
      assert (c + rest)[k..] == rest;
    } else {
      PlainBytes(c, rest, k);
      SpacedStep((c + rest)[k..]);
      SpacedBytes(c, rest, k + 1);
      assert (c + rest)[k..][1..] == (c + rest)[k + 1..];
      assert c[k..] == [c[k]] + c[k + 1..];
    }
  }

  lemma SpacedOne(c: string, rest: string)
    requires ValidCodepoint(c)
    ensures Spaced(c + rest) == Shown(c) + Spaced(rest)
  {
    MarkIsCodepoint();
    hide Spaced, Utf8Text;
    if IsWhite(c) {
      WhiteIsSpace(c[0]);
      assert (c + rest)[1..] == rest;
      SpacedStep(c + rest);
    } else if c == MARK {
      assert (c + rest)[3..] == rest && !IsSpace((c + rest)[0]);
      SpacedStep(c + rest);
    } else {
      SpacedBytes(c, rest, 0);
      assert (c + rest)[0..] == c + rest;
    }
  }

  lemma SpacedStep(s: string)
    requires s != []
    ensures IsSpace(s[0]) ==> Spaced(s) == " " + Spaced(s[1..])
    ensures !IsSpace(s[0]) && Marked(s) ==> Spaced(s) == " " + Spaced(s[3..])
    ensures !IsSpace(s[0]) && !Marked(s) ==> Spaced(s) == [s[0]] + Spaced(s[1..])
  {}

  lemma {:induction false} SpacedCodepoints(parts: seq<string>)
    requires AllValid(parts)
    ensures Spaced(Together(parts)) == Together(AllShown(parts))
  {
    hide ValidCodepoint, Shown;
    if parts != [] {
      AllValidTail(parts);
      SpacedCodepoints(parts[1..]);
      SpacedOne(parts[0], Together(parts[1..]));
      assert AllShown(parts)[1..] == AllShown(parts[1..]);
    }
  }

  lemma TrimmedOne(c: string, rest: string)
    requires ValidCodepoint(c)
    ensures Trimmed(c + rest) == if Shown(c) == " " then Trimmed(rest) else c + rest
  {
    MarkIsCodepoint();
    hide Trimmed, Utf8Text;
    if IsWhite(c) {
      WhiteIsSpace(c[0]);
      assert (c + rest)[1..] == rest;
      TrimmedStep(c + rest);
    } else if c == MARK {
      assert (c + rest)[3..] == rest && !IsSpace((c + rest)[0]);
      TrimmedStep(c + rest);
    } else {
      assert c != " ";
      PlainBytes(c, rest, 0);
      assert (c + rest)[0..] == c + rest;
      TrimmedStep(c + rest);
    }
  }

  lemma TrimmedStep(s: string)
    requires s != []
    ensures Trimmed(s) == if IsSpace(s[0]) then Trimmed(s[1..]) else if Marked(s) then Trimmed(s[3..]) else s
  {}

  lemma {:induction false} TrimmedCodepoints(parts: seq<string>)
    requires AllValid(parts)
    ensures Trimmed(Together(parts)) == Together(DropBlank(parts)) && AllValid(DropBlank(parts))
  {
    hide ValidCodepoint, Shown;
    if parts != [] {
      AllValidTail(parts);
      TrimmedOne(parts[0], Together(parts[1..]));
      if Shown(parts[0]) == " " {
        TrimmedCodepoints(parts[1..]);
      }
    }
  }

  /**
   The round trip of valid text: its code points from the first one on that is neither white space nor U+2581, each
   of these shown as a space.
   */
  lemma RoundTripCodepoints(v: Vocab, parts: seq<string>)
    requires ValidVocab(v) && AllValid(parts) && Covered(v, Normalized(Together(parts)))
    requires forall w {:trigger w in v.tokenToId} :: w in v.tokenToId ==> ValidUtf8(w)
    ensures Join([], Pieces(v, Tokens(v, Normalized(Together(parts))))) == Together(AllShown(DropBlank(parts)))
  {
    hide *;
    forall w {:trigger w in v.tokenToId} | w in v.tokenToId ensures WholeCodepoints(w) {
      ValidIsWhole(w);
    }
    RoundTrip(v, Together(parts));
    TrimmedCodepoints(parts);
    SpacedCodepoints(DropBlank(parts));
  }

  // ----- the normalized text -----

  /** White space becomes U+2581. */
  function Marks(parts: seq<string>): seq<string>
  {
    seq(|parts|, i requires 0 <= i < |parts| => if IsWhite(parts[i]) then Utf8Text(0x2581) else parts[i])
  }

  lemma NotSpace(c: string, k: nat)
    requires ValidCodepoint(c) && !IsWhite(c) && k < |c|
    ensures !IsSpace(c[k])
  {
    if |c| == 1 {
      assert c == [c[0]];
    }
  }

  lemma {:induction false} KeepsBytes(c: string, rest: string, k: nat)
    requires ValidCodepoint(c) && !IsWhite(c) && k <= |c|
    ensures SpacesMarked(c[k..] + rest) == c[k..] + SpacesMarked(rest)
    decreases |c| - k
  {
    hide ValidCodepoint, IsWhite, IsSpace;
    if k == |c| {
      assert c[k..] + rest == rest;
    } else {
      NotSpace(c, k);
      KeepsBytes(c, rest, k + 1);
      assert (c[k..] + rest)[1..] == c[k + 1..] + rest;
      assert c[k..] == [c[k]] + c[k + 1..];
    }
  }

  lemma {:induction false} MarkedCodepoints(parts: seq<string>)
    requires AllValid(parts)
    ensures SpacesMarked(Together(parts)) == Together(Marks(parts)) && AllValid(Marks(parts))
  {
    MarkIsCodepoint();
    if parts != [] {
      AllValidTail(parts);
      assert ValidCodepoint(MARK);
      hide ValidCodepoint, Utf8Text;
      MarkedCodepoints(parts[1..]);
      var c, rest := parts[0], Together(parts[1..]);
      if IsWhite(c) {
        WhiteIsSpace(c[0]);
        assert (c + rest)[1..] == rest;
      } else {
        KeepsBytes(c, rest, 0);
        assert c[0..] == c;
      }
      assert Marks(parts)[1..] == Marks(parts[1..]);
    }
  }

  /** The normalized text is U+2581 and then the text with white space replaced by it. */
  lemma NormalizedCodepoints(parts: seq<string>)
    requires AllValid(parts)
    ensures Normalized(Together(parts)) == Together([Utf8Text(0x2581)] + Marks(parts)) && ValidUtf8(Normalized(Together(parts)))
  {
    MarkIsCodepoint();
    assert ValidCodepoint(MARK);
    hide ValidCodepoint, Utf8Text, Marks, SpacesMarked;
    MarkedCodepoints(parts);
    var all := [MARK] + Marks(parts);
    assert all[1..] == Marks(parts);
    assert AllValid(all);
  }

  // ----- tokenizing -----

  /** A piece of the vocabulary, but none of the control ones, stands at the front. */
  predicate PieceAt(v: Vocab, s: string, l: nat)
  {
    0 < l <= |s| && s[..l] in v.tokenToId && s[..l] !in ["<unk>", "<s>", "</s>", "[BLANK]"]
  }

  /** The longest piece each time, or the unknown token for one code point that no piece starts with. */
  ghost predicate Greedy(v: Vocab, s: string, tokens: seq<int>)
    decreases |s|
  {
    if s == [] then tokens == []
    else if exists l: nat {:trigger PieceAt(v, s, l)} :: PieceAt(v, s, l) then
      exists l: nat {:trigger PieceAt(v, s, l)} :: PieceAt(v, s, l) && (forall k: nat {:trigger PieceAt(v, s, k)} :: l < k ==> !PieceAt(v, s, k))
        && tokens != [] && tokens[0] == v.tokenToId[s[..l]] && Greedy(v, s[l..], tokens[1..])
    else
      exists n: nat {:trigger s[..n]} :: 0 < n <= |s| && ValidCodepoint(s[..n]) &&
        if v.unk >= 0 then tokens != [] && tokens[0] == v.unk && Greedy(v, s[n..], tokens[1..]) else Greedy(v, s[n..], tokens)
  }

  lemma PieceIsPiece(v: Vocab, s: string, l: nat)
    ensures PieceAt(v, s, l) <==> 0 < l <= |s| && IsPiece(v, s[..l])
  {}

  lemma LengthOfValid(c: string)
    requires ValidCodepoint(c)
    ensures CodepointLength(c[0]) == |c|
  {}

  /** The length by the masks that the source tests. */
  lemma LengthMasks(b: bv8)
    ensures CodepointLength(b as char) ==
      if b & 0x80 == 0 then 1 else if b & 0xE0 == 0xC0 then 2 else if b & 0xF0 == 0xE0 then 3 else if b & 0xF8 == 0xF0 then 4 else 1
  {}

  lemma FirstCodepoint(s: string) returns (n: nat)
    requires ValidUtf8(s) && s != []
    ensures 0 < n <= |s| && ValidCodepoint(s[..n]) && ValidUtf8(s[n..])
  {
    var parts :| AllValid(parts) && Together(parts) == s;
    assert parts != [];
    AllValidTail(parts);
    n := |parts[0]|;
    assert s[..n] == parts[0] && s[n..] == Together(parts[1..]);
  }

  lemma {:induction false} TokensAreGreedy(v: Vocab, s: string)
    requires ValidVocab(v) && ValidUtf8(s) && forall w {:trigger w in v.tokenToId} :: w in v.tokenToId ==> ValidUtf8(w)
    ensures Greedy(v, s, Tokens(v, s))
    decreases |s|
  {
    hide ValidUtf8, ValidCodepoint, Longest, Cap, CodepointLength, IsControl;
    if s != [] {
      var l := Longest(v, s, Cap(v, s));
      LongestOfAll(v, s);
      forall k: nat {:trigger PieceAt(v, s, k)} | l < k ensures !PieceAt(v, s, k) {
        PieceIsPiece(v, s, k);
      }
      if l > 0 {
        PieceIsPiece(v, s, l);
        ValidIsWhole(s[..l]);
        assert s == s[..l] + s[l..];
        ValidParts(s[..l], s[l..]);
        TokensAreGreedy(v, s[l..]);
        assert Tokens(v, s)[1..] == Tokens(v, s[l..]);
      } else {
        var n := FirstCodepoint(s);
        LengthOfValid(s[..n]);
        assert s[..n][0] == s[0];
        TokensAreGreedy(v, s[n..]);
        assert v.unk >= 0 ==> Tokens(v, s)[1..] == Tokens(v, s[n..]);
        assert v.unk < 0 ==> Tokens(v, s) == Tokens(v, s[n..]);
      }
    }
  }

  /** A vocabulary that has every code point of the text leaves nothing to the unknown token. */
  lemma {:induction false} SinglesCover(v: Vocab, s: string)
    requires ValidVocab(v) && ValidUtf8(s) && forall w {:trigger w in v.tokenToId} :: w in v.tokenToId ==> ValidUtf8(w)
    requires forall i: nat, j: nat {:trigger s[i..j]} :: i < j <= |s| && ValidCodepoint(s[i..j]) ==> IsPiece(v, s[i..j])
    ensures Covered(v, s)
    decreases |s|
  {
    hide ValidUtf8, ValidCodepoint, Longest, Cap, IsControl;
    if s != [] {
      var n := FirstCodepoint(s);
      var l := Longest(v, s, Cap(v, s));
      assert s[..n] == s[0..n];
      LongestOfAll(v, s);
      assert l > 0;
      ValidIsWhole(s[..l]);
      assert s == s[..l] + s[l..];
      ValidParts(s[..l], s[l..]);
      forall i: nat, j: nat {:trigger s[l..][i..j]} | i < j <= |s| - l && ValidCodepoint(s[l..][i..j])
        ensures IsPiece(v, s[l..][i..j])
      {
        assert s[l..][i..j] == s[l + i..l + j];
      }
      SinglesCover(v, s[l..]);
    }
  }

  /** What tokenizing valid text comes to. */
  lemma TokenizeIsGreedy(v: Vocab, parts: seq<string>)
    requires ValidVocab(v) && AllValid(parts) && forall w {:trigger w in v.tokenToId} :: w in v.tokenToId ==> ValidUtf8(w)
    ensures Greedy(v, Together([Utf8Text(0x2581)] + Marks(parts)), Tokens(v, Normalized(Together(parts))))
  {
    hide *;
    NormalizedCodepoints(parts);
    TokensAreGreedy(v, Normalized(Together(parts)));
  }

  // ----- the text of a piece -----

  function Unmarked(c: string): string
  {
    if c == Utf8Text(0x2581) then " " else c
  }

  function AllUnmarked(parts: seq<string>): seq<string>
  {
    seq(|parts|, i requires 0 <= i < |parts| => Unmarked(parts[i]))
  }

  function DropLeading(parts: seq<string>): seq<string>
  {
    if parts != [] && parts[0] == Utf8Text(0x2581) then DropLeading(parts[1..]) else parts
  }

  lemma NoMarkInside(c: string, rest: string, k: nat)
    requires ValidCodepoint(c) && c != MARK && k < |c|
    ensures !Marked((c + rest)[k..])
  {
    var s := (c + rest)[k..];
    assert s[0] == c[k];
    if |s| >= 3 && k == 0 && |c| == 3 {
      assert s[..3] == c;
    }
  }

  lemma UnmarkStep(s: string)
    requires s != []
    ensures !Marked(s) ==> Unmark(s) == [s[0]] + Unmark(s[1..])
  {}

  lemma {:induction false} UnmarkBytes(c: string, rest: string, k: nat)
    requires ValidCodepoint(c) && c != MARK && k <= |c|
    ensures Unmark((c + rest)[k..]) == c[k..] + Unmark(rest)
    decreases |c| - k
  {
    hide ValidCodepoint, Marked, Unmark;
    if k == |c| {
      assert (c + rest)[k..] == rest;
    } else {
      UnmarkStep((c + rest)[k..]);
      NoMarkInside(c, rest, k);
      UnmarkBytes(c, rest, k + 1);
      assert (c + rest)[k..][1..] == (c + rest)[k + 1..];
      assert c[k..] == [c[k]] + c[k + 1..];
    }
  }

  lemma {:induction false} UnmarkCodepoints(parts: seq<string>)
    requires AllValid(parts)
    ensures Unmark(Together(parts)) == Together(AllUnmarked(parts))
  {
    MarkIsCodepoint();
    if parts != [] {
      AllValidTail(parts);
      hide ValidCodepoint, Utf8Text;
      UnmarkCodepoints(parts[1..]);
      var c, rest := parts[0], Together(parts[1..]);
      if c == MARK {
        assert (c + rest)[3..] == rest;
      } else {
        UnmarkBytes(c, rest, 0);
        assert (c + rest)[0..] == c + rest && c[0..] == c;
      }
      assert AllUnmarked(parts)[1..] == AllUnmarked(parts[1..]);
    }
  }

  lemma {:induction false} DropCodepoints(parts: seq<string>)
    requires AllValid(parts)
    ensures DropMarks(Together(parts)) == Together(DropLeading(parts)) && AllValid(DropLeading(parts))
  {
    MarkIsCodepoint();
    if parts != [] {
      AllValidTail(parts);
      var c, rest := parts[0], Together(parts[1..]);
      if c != MARK {
        NoMarkInside(c, rest, 0);
        assert (c + rest)[0..] == c + rest;
      }
      hide ValidCodepoint, Utf8Text;
      if c == MARK {
        assert (c + rest)[3..] == rest;
        DropCodepoints(parts[1..]);
      }
    }
  }

  /** Control pieces have no text; in others U+2581 shows as a space, but not before the first text. */
  lemma PieceTextCodepoints(parts: seq<string>, first: bool)
    requires AllValid(parts)
    ensures PieceText(Together(parts), first) ==
      if Together(parts) in ["<unk>", "<s>", "</s>", "[BLANK]"] then []
      else Together(AllUnmarked(if first then DropLeading(parts) else parts))
  {
    hide Unmark, DropMarks, Together, Utf8Text, ValidCodepoint;
    DropCodepoints(parts);
    UnmarkCodepoints(DropLeading(parts));
    UnmarkCodepoints(parts);
  }
}
