/** Merging tokens so that no code point is split between two pieces of output. */
module TokenMerge {
  import opened Codepoints

  datatype Token = Token(text: string, id: int, t0: int, t1: int)

  datatype Merged = Merged(text: string, data: Token, t1: int)

  // ----- how many bytes the last code point lacks -----

  /** The place of the last byte that is not a continuation, or -1. */
  function LastLead(s: string): (i: int)
    ensures -1 <= i < |s| && (i >= 0 ==> !IsContinuation(s[i]))
    ensures forall k {:trigger s[k]} :: i < k < |s| ==> IsContinuation(s[k])
  {
    if s == [] then -1 else if !IsContinuation(s[|s| - 1]) then |s| - 1 else LastLead(s[..|s| - 1])
  }

  function Lacking(s: string): nat
  {
    var i := LastLead(s);
    if i < 0 then 0
    else if LeadLength(s[i]) > |s| - i then LeadLength(s[i]) - (|s| - i) else 0
  }

  method TrailingBytesNeeded(s: string) returns (n: nat)
    ensures n == Lacking(s)
  {
    var i := |s| - 1;
    assert s[..|s|] == s;
    while i >= 0 && IsContinuation(s[i])
      invariant -1 <= i < |s| && LastLead(s[..i + 1]) == LastLead(s)
      decreases i + 1
    {
      assert s[..i + 1][..i] == s[..i];
      i := i - 1;
    }
    assert i >= 0 ==> s[..i + 1][i] == s[i];
    if i < 0 {
      return 0;
    }
    var expected := LeadLength(s[i]);
    if expected == 0 {
      return 0;
    }
    var have := |s| - i;
    n := if have >= expected then 0 else expected - have;
  }

  lemma LastLeadUnique(s: string, i: nat)
    requires i < |s| && !IsContinuation(s[i]) && forall k {:trigger s[k]} :: i < k < |s| ==> IsContinuation(s[k])
    ensures LastLead(s) == i
  {
    assert s[LastLead(s)] == s[LastLead(s)] || LastLead(s) < 0;
  }

  /** At the start of whole text, nothing is lacking exactly where a code point ends. */
  lemma {:induction false} NothingLacking(s: string, r: string)
    requires WholeCodepoints(s + r)
    ensures Lacking(s) == 0 <==> WholeCodepoints(s)
    decreases |s|
  {
    if s != [] {
      var n := LeadLength(s[0]);
      assert (s + r)[0] == s[0];
      assert forall k {:trigger s[k]} :: 1 <= k < n && k < |s| ==> (s + r)[k] == s[k];
      if n > |s| {
        LastLeadUnique(s, 0);
      } else {
        var rest := s[n..];
        assert (s + r)[n..] == rest + r;
        NothingLacking(rest, r);
        if rest == [] {
          LastLeadUnique(s, 0);
        } else {
          assert LeadLength(rest[0]) > 0 by { assert (rest + r)[0] == rest[0]; }
          LackingTail(s, n);
        }
      }
    }
  }

  lemma LackingTail(s: string, n: nat)
    requires n < |s| && !IsContinuation(s[n])
    ensures Lacking(s) == Lacking(s[n..])
  {
    var rest := s[n..];
    var j := LastLead(rest);
    assert rest[0] == s[n];
    assert j >= 0;
    forall k {:trigger s[k]} | n + j < k < |s| ensures IsContinuation(s[k]) {
      assert s[k] == rest[k - n];
    }
    LastLeadUnique(s, n + j);
  }

  // ----- merging -----

  function Text(tokens: seq<Token>): string
  {
    if tokens == [] then [] else Text(tokens[..|tokens| - 1]) + tokens[|tokens| - 1].text
  }

  lemma {:induction false} TextConcat(a: seq<Token>, b: seq<Token>)
    ensures Text(a + b) == Text(a) + Text(b)
  {
    if b == [] {
      assert a + b == a;
    } else {
      var n := |b| - 1;
      assert (a + b)[..|a + b| - 1] == a + b[..n];
      TextConcat(a, b[..n]);
      assert Text(a) + Text(b[..n]) + b[n].text == Text(a) + (Text(b[..n]) + b[n].text);
    }
  }

  lemma TextMore(tokens: seq<Token>, j: nat, k: nat)
    requires j <= k < |tokens|
    ensures Text(tokens[j..k + 1]) == Text(tokens[j..k]) + tokens[k].text
  {
    assert tokens[j..k + 1][..k - j] == tokens[j..k];
  }

  /** The end time of merged tokens: that of the last one that has any, otherwise that of the first. */
  function EndTime(tokens: seq<Token>): int
    requires tokens != []
  {
    var n := |tokens| - 1;
    if n == 0 then tokens[0].t1 else if tokens[n].t1 > -1 then tokens[n].t1 else EndTime(tokens[..n])
  }

  /** One piece of output: the tokens from `j` up to `k`. */
  ghost predicate IsPiece(tokens: seq<Token>, j: nat, k: nat, m: Merged)
  {
    j < k <= |tokens| && m.text == Text(tokens[j..k]) && m.data == tokens[j] && m.t1 == EndTime(tokens[j..k])
  }

  /** The tokens are not cut where their text would already be whole. */
  ghost predicate Shortest(tokens: seq<Token>, j: nat, k: nat)
    requires j <= k <= |tokens|
  {
    forall i {:trigger tokens[j..i]} :: j < i < k ==> !WholeCodepoints(Text(tokens[j..i]))
  }

  /** The pieces follow one another at the cuts. */
  ghost predicate Pieces(tokens: seq<Token>, merged: seq<Merged>, cuts: seq<nat>)
  {
    && |cuts| == |merged| + 1 && cuts[0] == 0
    && forall i {:trigger merged[i]} :: 0 <= i < |merged| ==> IsPiece(tokens, cuts[i], cuts[i + 1], merged[i])
  }

  ghost predicate Clean(tokens: seq<Token>, merged: seq<Merged>, cuts: seq<nat>)
    requires Pieces(tokens, merged, cuts)
  {
    forall i {:trigger merged[i]} :: 0 <= i < |merged| ==> CleanPiece(tokens, cuts[i], cuts[i + 1], merged[i])
  }

  ghost predicate CleanPiece(tokens: seq<Token>, j: nat, k: nat, m: Merged)
  {
    j <= k <= |tokens| && WholeCodepoints(m.text) && Shortest(tokens, j, k)
  }

  function Joined(merged: seq<Merged>): string
  {
    if merged == [] then [] else Joined(merged[..|merged| - 1]) + merged[|merged| - 1].text
  }

  method MergePiece(tokens: seq<Token>, j: nat) returns (k: nat, m: Merged)
    requires j < |tokens|
    ensures IsPiece(tokens, j, k, m)
    ensures WholeCodepoints(Text(tokens[j..])) ==> WholeCodepoints(m.text) && Shortest(tokens, j, k)
  {
    hide WholeCodepoints, Lacking, Text, EndTime;
    var tok := tokens[j];
    m := Merged(tok.text, tok, tok.t1);
    k := j + 1;
    OneToken(tokens, j);
    var needed := TrailingBytesNeeded(m.text);
    while k < |tokens| && needed > 0
      invariant IsPiece(tokens, j, k, m) && needed == Lacking(m.text)
      invariant WholeCodepoints(Text(tokens[j..])) ==> Shortest(tokens, j, k)
      decreases |tokens| - k
    {
      if WholeCodepoints(Text(tokens[j..])) {
        CutAt(tokens, j, k);
      }
      MoreToken(tokens, j, k);
      var next := tokens[k];
      m := m.(text := m.text + next.text);
      if next.t1 > -1 {
        m := m.(t1 := next.t1);
      }
      k := k + 1;
      needed := TrailingBytesNeeded(m.text);
    }
    if WholeCodepoints(Text(tokens[j..])) {
      CutAt(tokens, j, k);
      assert tokens[j..|tokens|] == tokens[j..];
    }
  }

  lemma OneToken(tokens: seq<Token>, j: nat)
    requires j < |tokens|
    ensures Text(tokens[j..j + 1]) == tokens[j].text && EndTime(tokens[j..j + 1]) == tokens[j].t1
  {
    TextMore(tokens, j, j);
    assert Text(tokens[j..j]) == [];
  }

  lemma MoreToken(tokens: seq<Token>, j: nat, k: nat)
    requires j < k < |tokens|
    ensures Text(tokens[j..k + 1]) == Text(tokens[j..k]) + tokens[k].text
    ensures EndTime(tokens[j..k + 1]) == if tokens[k].t1 > -1 then tokens[k].t1 else EndTime(tokens[j..k])
  {
    TextMore(tokens, j, k);
    assert tokens[j..k + 1][..k - j] == tokens[j..k];
  }

  /** Within whole text, the tokens so far are whole exactly when nothing is lacking. */
  lemma CutAt(tokens: seq<Token>, j: nat, k: nat)
    requires j <= k <= |tokens| && WholeCodepoints(Text(tokens[j..]))
    ensures Lacking(Text(tokens[j..k])) == 0 <==> WholeCodepoints(Text(tokens[j..k]))
  {
    assert tokens[j..] == tokens[j..k] + tokens[k..];
    TextConcat(tokens[j..k], tokens[k..]);
    NothingLacking(Text(tokens[j..k]), Text(tokens[k..]));
  }

  method Merge(tokens: seq<Token>) returns (merged: seq<Merged>, ghost cuts: seq<nat>)
    ensures Pieces(tokens, merged, cuts) && cuts[|cuts| - 1] == |tokens|
    ensures Joined(merged) == Text(tokens)
    ensures WholeCodepoints(Text(tokens)) ==> Clean(tokens, merged, cuts)
    ensures ValidUtf8(Text(tokens)) ==> ValidPieces(tokens, merged, cuts)
    ensures forall i {:trigger merged[i]} :: 0 <= i < |merged| ==> LastTime(tokens, cuts[i], cuts[i + 1], merged[i].t1)
  {
    assert tokens[0..] == tokens && Text(tokens[..0]) == [];
    hide WholeCodepoints, ValidUtf8, Text, Shortest, IsPiece;
    merged, cuts := [], [0];
    var j := 0;
    while j < |tokens|
      invariant j <= |tokens| && Pieces(tokens, merged, cuts) && cuts[|cuts| - 1] == j
      invariant Joined(merged) == Text(tokens[..j])
      invariant WholeCodepoints(Text(tokens)) ==> Clean(tokens, merged, cuts) && WholeCodepoints(Text(tokens[j..]))
      decreases |tokens| - j
    {
      var k, m := MergePiece(tokens, j);
      PieceFacts(tokens, j, k, m);
      MorePieces(tokens, merged, cuts, m, k);
      merged, cuts, j := merged + [m], cuts + [k], k;
    }
    assert tokens[..j] == tokens;
    if ValidUtf8(Text(tokens)) {
      ValidIsWhole(Text(tokens));
      CleanIsValid(tokens, merged, cuts);
    }
    EndTimesAre(tokens, merged, cuts);
  }

  /** Every piece is valid on its own, and no shorter run of its tokens is. */
  ghost predicate ValidPieces(tokens: seq<Token>, merged: seq<Merged>, cuts: seq<nat>)
    requires Pieces(tokens, merged, cuts)
  {
    forall i {:trigger merged[i]} :: 0 <= i < |merged| ==> ValidPiece(tokens, cuts[i], cuts[i + 1], merged[i])
  }

  ghost predicate ValidPiece(tokens: seq<Token>, j: nat, k: nat, m: Merged)
  {
    j <= k <= |tokens| && ValidUtf8(m.text) && forall i {:trigger tokens[j..i]} :: j < i < k ==> !ValidUtf8(Text(tokens[j..i]))
  }

  lemma CleanIsValid(tokens: seq<Token>, merged: seq<Merged>, cuts: seq<nat>)
    requires Pieces(tokens, merged, cuts) && Clean(tokens, merged, cuts) && ValidUtf8(Joined(merged))
    ensures ValidPieces(tokens, merged, cuts)
  {
    hide ValidUtf8, WholeCodepoints, IsPiece;
    assert forall i {:trigger merged[i]} :: 0 <= i < |merged| ==> CleanPiece(tokens, cuts[i], cuts[i + 1], merged[i]);
    PiecesValid(merged);
    forall i {:trigger merged[i]} | 0 <= i < |merged| ensures ValidPiece(tokens, cuts[i], cuts[i + 1], merged[i]) {
      var j, k := cuts[i], cuts[i + 1];
      assert CleanPiece(tokens, j, k, merged[i]) && j <= k <= |tokens|;
      forall l {:trigger tokens[j..l]} | j < l < k ensures !ValidUtf8(Text(tokens[j..l])) {
        if ValidUtf8(Text(tokens[j..l])) {
          ValidIsWhole(Text(tokens[j..l]));
        }
      }
    }
  }

  /** The time is that of the last token that has one, or of the first token. */
  ghost predicate LastTime(tokens: seq<Token>, j: nat, k: nat, t: int)
  {
    exists i {:trigger tokens[i]} :: j <= i < k <= |tokens| && t == tokens[i].t1 && (i == j || tokens[i].t1 > -1)
      && forall l {:trigger tokens[l]} :: i < l < k ==> tokens[l].t1 <= -1
  }

  lemma {:induction false} EndTimeIs(tokens: seq<Token>, j: nat, k: nat)
    requires j < k <= |tokens|
    ensures LastTime(tokens, j, k, EndTime(tokens[j..k]))
  {
    var piece, n := tokens[j..k], k - j - 1;
    assert piece[n] == tokens[k - 1] && piece[0] == tokens[j];
    if n > 0 && tokens[k - 1].t1 <= -1 {
      assert piece[..n] == tokens[j..k - 1];
      EndTimeIs(tokens, j, k - 1);
    }
  }

  lemma EndTimesAre(tokens: seq<Token>, merged: seq<Merged>, cuts: seq<nat>)
    requires Pieces(tokens, merged, cuts)
    ensures forall i {:trigger merged[i]} :: 0 <= i < |merged| ==> LastTime(tokens, cuts[i], cuts[i + 1], merged[i].t1)
  {
    hide LastTime;
    forall i {:trigger merged[i]} | 0 <= i < |merged| ensures LastTime(tokens, cuts[i], cuts[i + 1], merged[i].t1) {
      assert IsPiece(tokens, cuts[i], cuts[i + 1], merged[i]);
      EndTimeIs(tokens, cuts[i], cuts[i + 1]);
    }
  }

  /** Whole pieces of valid text are valid. */
  lemma {:induction false} PiecesValid(merged: seq<Merged>)
    requires ValidUtf8(Joined(merged)) && forall i {:trigger merged[i]} :: 0 <= i < |merged| ==> WholeCodepoints(merged[i].text)
    ensures forall i {:trigger merged[i]} :: 0 <= i < |merged| ==> ValidUtf8(merged[i].text)
  {
    hide WholeCodepoints, ValidUtf8;
    if merged != [] {
      var init, last := merged[..|merged| - 1], merged[|merged| - 1];
      JoinedWhole(init);
      ValidParts(Joined(init), last.text);
      PiecesValid(init);
      assert forall i {:trigger merged[i]} :: 0 <= i < |init| ==> merged[i] == init[i];
    }
  }

  lemma {:induction false} JoinedWhole(merged: seq<Merged>)
    requires forall i {:trigger merged[i]} :: 0 <= i < |merged| ==> WholeCodepoints(merged[i].text)
    ensures WholeCodepoints(Joined(merged))
  {
    assert WholeCodepoints([]);
    hide WholeCodepoints;
    if merged != [] {
      var init := merged[..|merged| - 1];
      assert forall i {:trigger init[i]} :: 0 <= i < |init| ==> init[i] == merged[i];
      JoinedWhole(init);
      WholeConcat(Joined(init), merged[|merged| - 1].text);
    }
  }

  lemma PieceFacts(tokens: seq<Token>, j: nat, k: nat, m: Merged)
    requires IsPiece(tokens, j, k, m)
    ensures j < k <= |tokens| && Text(tokens[..k]) == Text(tokens[..j]) + m.text
    ensures WholeCodepoints(Text(tokens[j..])) && WholeCodepoints(m.text) ==> WholeCodepoints(Text(tokens[k..]))
  {
    hide WholeCodepoints;
    assert tokens[..k] == tokens[..j] + tokens[j..k];
    TextConcat(tokens[..j], tokens[j..k]);
    assert tokens[j..] == tokens[j..k] + tokens[k..];
    TextConcat(tokens[j..k], tokens[k..]);
    if WholeCodepoints(m.text) {
      WholeConcat(m.text, Text(tokens[k..]));
    }
  }

  lemma MorePieces(tokens: seq<Token>, merged: seq<Merged>, cuts: seq<nat>, m: Merged, k: nat)
    requires Pieces(tokens, merged, cuts) && IsPiece(tokens, cuts[|cuts| - 1], k, m)
    ensures Pieces(tokens, merged + [m], cuts + [k]) && Joined(merged + [m]) == Joined(merged) + m.text
    ensures Clean(tokens, merged, cuts) && WholeCodepoints(m.text) && Shortest(tokens, cuts[|cuts| - 1], k) ==>
      Clean(tokens, merged + [m], cuts + [k])
  {
    assert cuts[|cuts| - 1] < k <= |tokens|;
    var merged', cuts' := merged + [m], cuts + [k];
    assert merged'[..|merged|] == merged;
    assert CleanPiece(tokens, cuts[|cuts| - 1], k, m) <==> WholeCodepoints(m.text) && Shortest(tokens, cuts[|cuts| - 1], k);
    hide IsPiece, CleanPiece;
    forall i {:trigger merged'[i]} | 0 <= i < |merged'| ensures IsPiece(tokens, cuts'[i], cuts'[i + 1], merged'[i]) {
      assert i < |merged| ==> merged'[i] == merged[i];
    }
    if Clean(tokens, merged, cuts) && CleanPiece(tokens, cuts[|cuts| - 1], k, m) {
      forall i {:trigger merged'[i]} | 0 <= i < |merged'| ensures CleanPiece(tokens, cuts'[i], cuts'[i + 1], merged'[i]) {
        assert i < |merged| ==> merged'[i] == merged[i];
      }
    }
  }
}
