/** String similarity by edit distance, computed with two rows. */
module EditDistance {

  // ----- scripts -----

  datatype Edit = Keep | Replace(to: char) | Insert(c: char) | Delete

  datatype Outcome = Text(text: string) | Stuck

  function Append(o: Outcome, c: char): Outcome
  {
    match o case Text(t) => Text(t + [c]) case Stuck => Stuck
  }

  /** What a script makes of all of `s`; its last edit deals with the last character. */
  function Apply(script: seq<Edit>, s: string): (o: Outcome)
    decreases |script|
  {
    if script == [] then if s == [] then Text([]) else Stuck
    else
      var init, n := script[..|script| - 1], |s| - 1;
      match script[|script| - 1]
      case Insert(c) => Append(Apply(init, s), c)
      case Keep => if s == [] then Stuck else Append(Apply(init, s[..n]), s[n])
      case Replace(c) => if s == [] then Stuck else Append(Apply(init, s[..n]), c)
      case Delete => if s == [] then Stuck else Apply(init, s[..n])
  }

  function Weight(e: Edit): nat
  {
    if e == Keep then 0 else 1
  }

  function Cost(script: seq<Edit>): (c: nat)
  {
    if script == [] then 0 else Cost(script[..|script| - 1]) + Weight(script[|script| - 1])
  }

  ghost predicate Rewrites(script: seq<Edit>, s: string, t: string)
  {
    Apply(script, s) == Text(t)
  }

  /** `d` is the length of a shortest script from `s` to `t`. */
  ghost predicate Shortest(s: string, t: string, d: nat)
  {
    && (exists script :: Rewrites(script, s, t) && Cost(script) == d)
    && forall script {:trigger Rewrites(script, s, t)} :: Rewrites(script, s, t) ==> Cost(script) >= d
  }

  // ----- the recurrence -----

  function Min(a: nat, b: nat): nat
  {
    if b < a then b else a
  }

  function Init(s: string): string
    requires s != []
  {
    s[..|s| - 1]
  }

  function Last(s: string): char
    requires s != []
  {
    s[|s| - 1]
  }

  function Distance(s: string, t: string): nat
    decreases |s| + |t|
  {
    if s == [] then |t|
    else if t == [] then |s|
    else
      Min(Min(1 + Distance(s, Init(t)), 1 + Distance(Init(s), t)), Distance(Init(s), Init(t)) + if Last(s) == Last(t) then 0 else 1)
  }

  lemma OneMore(script: seq<Edit>, e: Edit)
    ensures (script + [e])[..|script|] == script && Cost(script + [e]) == Cost(script) + Weight(e)
  {
    assert (script + [e])[..|script|] == script;
  }

  lemma EndsWith(s: string, c: char, t: string)
    requires t == s + [c]
    ensures t != [] && Init(t) == s && Last(t) == c
  {}

  /** No script is shorter than the recurrence says. */
  lemma {:induction false} NoShorter(script: seq<Edit>, s: string, t: string)
    requires Rewrites(script, s, t)
    ensures Cost(script) >= Distance(s, t)
    decreases |script|
  {
    DistanceEmpty([]);
    hide Distance;
    if script != [] {
      var init := script[..|script| - 1];
      match script[|script| - 1]
      case Insert(c) =>
        var t' := Apply(init, s).text;
        NoShorter(init, s, t');
        EndsWith(t', c, t);
        DistanceStep(s, t);
      case Keep =>
        var t' := Apply(init, Init(s)).text;
        NoShorter(init, Init(s), t');
        EndsWith(t', Last(s), t);
        DistanceStep(s, t);
      case Replace(c) =>
        var t' := Apply(init, Init(s)).text;
        NoShorter(init, Init(s), t');
        EndsWith(t', c, t);
        DistanceStep(s, t);
      case Delete =>
        NoShorter(init, Init(s), t);
        DistanceStep(s, t);
    }
  }

  /** The distance changes by at most one with each edit at the end. */
  lemma {:induction false} DistanceStep(s: string, t: string)
    ensures t != [] ==> Distance(s, t) <= 1 + Distance(s, Init(t))
    ensures s != [] ==> Distance(s, t) <= 1 + Distance(Init(s), t)
    ensures s != [] && t != [] ==> Distance(s, t) <= Distance(Init(s), Init(t)) + if Last(s) == Last(t) then 0 else 1
  {
    DistanceEmpty(s);
    DistanceEmpty(t);
    if s != [] {
      DistanceEmpty(Init(s));
    }
    if t != [] {
      DistanceEmpty(Init(t));
    }
  }

  lemma DistanceEmpty(s: string)
    ensures Distance([], s) == |s| && Distance(s, []) == |s|
  {}

  /** Which edit a shortest script can end with. */
  function LastOfShortest(s: string, t: string): (e: Edit)
    requires s != [] || t != []
  {
    if t != [] && Distance(s, t) == 1 + Distance(s, Init(t)) then Insert(Last(t))
    else if s != [] && Distance(s, t) == 1 + Distance(Init(s), t) then Delete
    else if s != [] && t != [] && Last(s) == Last(t) then Keep
    else if t != [] then Replace(Last(t))
    else Delete
  }

  lemma LastOfShortestFits(s: string, t: string)
    requires s != [] || t != []
    ensures Ends(LastOfShortest(s, t), s, t)
    ensures Distance(s, t) == Distance(Before(LastOfShortest(s, t), s), After(LastOfShortest(s, t), t)) + Weight(LastOfShortest(s, t))
  {
    if s == [] || t == [] {
      DistanceEmpty(s);
      DistanceEmpty(t);
      if s == [] {
        DistanceEmpty(Init(t));
      } else {
        DistanceEmpty(Init(s));
      }
    }
  }

  /** Some script is as short as the recurrence says. */
  lemma {:induction false} ShortScript(s: string, t: string) returns (script: seq<Edit>)
    ensures Rewrites(script, s, t) && Cost(script) == Distance(s, t)
    decreases |s| + |t|
  {
    if s == [] && t == [] {
      script := [];
    } else {
      var e := LastOfShortest(s, t);
      LastOfShortestFits(s, t);
      assert (!e.Insert? ==> s != []) && (!e.Delete? ==> t != []);
      hide Cost, Apply, Distance, LastOfShortest, Weight, Ends;
      var p := ShortScript(Before(e, s), After(e, t));
      ApplyOne(p, e, s, t);
      script := p + [e];
    }
  }

  lemma DistanceIsShortest(s: string, t: string)
    ensures Shortest(s, t, Distance(s, t))
  {
    hide Apply, Cost, Distance;
    var p := ShortScript(s, t);
    forall script | Rewrites(script, s, t) ensures Cost(script) >= Distance(s, t) {
      NoShorter(script, s, t);
    }
  }

  // ----- a metric -----

  lemma {:induction false} Symmetric(s: string, t: string)
    ensures Distance(s, t) == Distance(t, s)
    decreases |s| + |t|
  {
    if s != [] && t != [] {
      Symmetric(s, Init(t));
      Symmetric(Init(s), t);
      Symmetric(Init(s), Init(t));
    }
  }

  lemma {:induction false} ZeroOnlyForEqual(s: string, t: string)
    ensures Distance(s, t) == 0 <==> s == t
    decreases |s| + |t|
  {
    if s != [] && t != [] {
      ZeroOnlyForEqual(Init(s), Init(t));
      assert s == Init(s) + [Last(s)] && t == Init(t) + [Last(t)];
    }
  }

  lemma {:induction false} AtMostLonger(s: string, t: string)
    ensures Distance(s, t) <= if |s| < |t| then |t| else |s|
    decreases |s| + |t|
  {
    if s != [] && t != [] {
      AtMostLonger(Init(s), Init(t));
    }
  }

  /** What is left of two edits of which the second deals with the character that the first produced. */
  function Merge(e: Edit, f: Edit): seq<Edit>
  {
    match (e, f)
    case (Insert(c), Keep) => [Insert(c)]
    case (Insert(_), Replace(d)) => [Insert(d)]
    case (Insert(_), _) => []
    case (e, Keep) => [e]
    case (_, f) => [f]
  }

  /** One script after another, as a single script. */
  function Compose(p: seq<Edit>, q: seq<Edit>): seq<Edit>
    decreases |p| + |q|
  {
    if q != [] && q[|q| - 1].Insert? then Compose(p, q[..|q| - 1]) + [q[|q| - 1]]
    else if p != [] && p[|p| - 1].Delete? then Compose(p[..|p| - 1], q) + [Delete]
    else if p == [] || q == [] then []
    else
      Compose(p[..|p| - 1], q[..|q| - 1]) + Merge(p[|p| - 1], q[|q| - 1])
  }

  /** `e` is possible as the last edit from `s` to `t`. */
  ghost predicate Ends(e: Edit, s: string, t: string)
  {
    && (!e.Insert? ==> s != [])
    && (!e.Delete? ==> t != [])
    && match e
       case Keep => Last(t) == Last(s)
       case Replace(c) => Last(t) == c
       case Insert(c) => Last(t) == c
       case Delete => true
  }

  function Before(e: Edit, s: string): string
    requires !e.Insert? ==> s != []
  {
    if e.Insert? then s else Init(s)
  }

  function After(e: Edit, t: string): string
    requires !e.Delete? ==> t != []
  {
    if e.Delete? then t else Init(t)
  }

  /** What the last edit of a script did. */
  lemma LastEdit(p: seq<Edit>, s: string, t: string)
    requires Rewrites(p, s, t)
    ensures p == [] ==> s == [] && t == []
    ensures p != [] ==>
      var e := p[|p| - 1];
      && Ends(e, s, t) && Rewrites(p[..|p| - 1], Before(e, s), After(e, t))
      && Cost(p) == Cost(p[..|p| - 1]) + Weight(e)
  {}

  lemma ApplyOne(p: seq<Edit>, e: Edit, s: string, t: string)
    requires Ends(e, s, t) && Rewrites(p, Before(e, s), After(e, t))
    ensures Rewrites(p + [e], s, t) && Cost(p + [e]) == Cost(p) + Weight(e)
  {
    OneMore(p, e);
    assert t != [] ==> Init(t) + [Last(t)] == t;
  }

  lemma MergeEnds(e: Edit, f: Edit, s: string, t: string, u: string)
    requires Ends(e, s, t) && Ends(f, t, u) && !e.Delete? && !f.Insert?
    ensures e.Insert? && f.Delete? ==> Merge(e, f) == []
    ensures !(e.Insert? && f.Delete?) ==>
      && |Merge(e, f)| == 1 && Ends(Merge(e, f)[0], s, u) && Weight(Merge(e, f)[0]) <= Weight(e) + Weight(f)
      && Before(Merge(e, f)[0], s) == Before(e, s) && After(Merge(e, f)[0], u) == After(f, u)
  {}

  lemma {:induction false} ComposeWorks(p: seq<Edit>, q: seq<Edit>, s: string, t: string, u: string)
    requires Rewrites(p, s, t) && Rewrites(q, t, u)
    ensures Rewrites(Compose(p, q), s, u) && Cost(Compose(p, q)) <= Cost(p) + Cost(q)
    decreases |p| + |q|
  {
    hide Cost, Apply, Ends, Merge, Weight;
    LastEdit(p, s, t);
    LastEdit(q, t, u);
    if q != [] && q[|q| - 1].Insert? {
      var q', f := q[..|q| - 1], q[|q| - 1];
      InsertEnds(f, s, t, u);
      ComposeWorks(p, q', s, t, Init(u));
      ApplyOne(Compose(p, q'), f, s, u);
    } else if p != [] && p[|p| - 1].Delete? {
      var p' := p[..|p| - 1];
      DeleteEnds(s, t, u);
      ComposeWorks(p', q, Init(s), t, u);
      ApplyOne(Compose(p', q), Delete, s, u);
    } else if p == [] || q == [] {
      NothingLeft(p, q, s, t, u);
    } else {
      var p', q', e, f := p[..|p| - 1], q[..|q| - 1], p[|p| - 1], q[|q| - 1];
      MergeEnds(e, f, s, t, u);
      ComposeWorks(p', q', Before(e, s), Init(t), After(f, u));
      MergeWorks(Compose(p', q'), e, f, s, t, u);
    }
  }

  lemma InsertEnds(f: Edit, s: string, t: string, u: string)
    requires f.Insert? && Ends(f, t, u)
    ensures Ends(f, s, u)
  {}

  lemma DeleteEnds(s: string, t: string, u: string)
    requires Ends(Delete, s, t)
    ensures Ends(Delete, s, u)
  {}

  lemma NothingLeft(p: seq<Edit>, q: seq<Edit>, s: string, t: string, u: string)
    requires Rewrites(p, s, t) && Rewrites(q, t, u) && (p == [] || q == [])
    requires (q == [] || !q[|q| - 1].Insert?) && (p == [] || !p[|p| - 1].Delete?)
    ensures p == [] && q == []
  {
    LastEdit(p, s, t);
    LastEdit(q, t, u);
  }

  lemma MergeWorks(rest: seq<Edit>, e: Edit, f: Edit, s: string, t: string, u: string)
    requires Ends(e, s, t) && Ends(f, t, u) && !e.Delete? && !f.Insert?
    requires Rewrites(rest, Before(e, s), After(f, u))
    ensures Rewrites(rest + Merge(e, f), s, u) && Cost(rest + Merge(e, f)) <= Cost(rest) + Weight(e) + Weight(f)
  {
    MergeEnds(e, f, s, t, u);
    hide Cost, Apply, Merge, Ends;
    if e.Insert? && f.Delete? {
      assert rest + Merge(e, f) == rest;
    } else {
      var g := Merge(e, f)[0];
      assert Merge(e, f) == [g];
      ApplyOne(rest, g, s, u);
    }
  }

  lemma Triangle(s: string, t: string, u: string)
    ensures Distance(s, u) <= Distance(s, t) + Distance(t, u)
  {
    hide Distance, Compose, Cost, Apply;
    var p := ShortScript(s, t);
    var q := ShortScript(t, u);
    ComposeWorks(p, q, s, t, u);
    NoShorter(Compose(p, q), s, u);
  }

  // ----- two rows -----

  /** Row `i` of the table: distances from the first `i` characters of `s` to each prefix of `t`. */
  ghost predicate IsRow(row: seq<nat>, s: string, i: nat, t: string)
    requires i <= |s|
  {
    |row| == |t| + 1 && forall j {:trigger row[j]} :: 0 <= j <= |t| ==> row[j] == Distance(s[..i], t[..j])
  }

  lemma Recurrence(s: string, t: string)
    requires s != [] && t != []
    ensures Distance(s, t) == Min(Min(1 + Distance(s, Init(t)), 1 + Distance(Init(s), t)),
      Distance(Init(s), Init(t)) + if Last(s) == Last(t) then 0 else 1)
  {
    hide Init, Last, Min;
  }

  /** The entry from its neighbours; in row 0 nothing matches and the entry above is read from row 0 itself. */
  lemma NextEntry(s: string, i: nat, t: string, j: nat, up: nat, left: nat, diagonal: nat)
    requires i <= |s| && 1 <= j <= |t|
    requires left == Distance(s[..i], t[..j - 1])
    requires up == Distance(s[..if i == 0 then 0 else i - 1], t[..j])
    requires diagonal == Distance(s[..if i == 0 then 0 else i - 1], t[..j - 1])
    ensures Min(Min(1 + left, 1 + up), diagonal + if i > 0 && s[i - 1] == t[j - 1] then 0 else 1) == Distance(s[..i], t[..j])
  {
    hide Distance;
    var p, q := s[..i], t[..j];
    assert q[..j - 1] == t[..j - 1];
    if i > 0 {
      assert p[..i - 1] == s[..i - 1];
      assert Last(p) == s[i - 1] && Last(q) == t[j - 1];
      Recurrence(p, q);
    } else {
      DistanceEmpty(q);
      DistanceEmpty(t[..j - 1]);
    }
  }

  datatype Score = Score(value: real) | NotANumber

  /** 1 minus the distance relative to the longer string; with two empty strings a division of zero by zero. */
  method Similarity(s0: string, s1: string) returns (r: Score)
    ensures r.NotANumber? <==> s0 == [] && s1 == []
    ensures r.Score? ==>
      var longer := if |s0| < |s1| then |s1| else |s0|;
      r.value == 1.0 - Distance(s0, s1) as real / longer as real
  {
    var len0, len1 := |s0| + 1, |s1| + 1;
    var col, prevCol := new nat[len1](_ => 0), new nat[len1](_ => 0);
    for i := 0 to len1
      invariant forall j {:trigger prevCol[j]} :: 0 <= j < i ==> prevCol[j] == j
    {
      prevCol[i] := i;
    }
    FirstRow(prevCol[..], s0, s1);
    for i := 0 to len0
      invariant col.Length == prevCol.Length == len1 && col != prevCol && fresh(col) && fresh(prevCol)
      invariant IsRow(prevCol[..], s0, if i == 0 then 0 else i - 1, s1)
    {
      ghost var above := prevCol[..];
      FillRow(col, prevCol, s0, i, s1);
      col, prevCol := prevCol, col;
    }
    LastEntry(prevCol[..], s0, s1);
    var dist := prevCol[len1 - 1];
    var longer := if |s0| < |s1| then |s1| else |s0|;
    if longer == 0 {
      return NotANumber;
    }
    r := Score(1.0 - dist as real / longer as real);
  }

  lemma FirstRow(row: seq<nat>, s: string, t: string)
    requires |row| == |t| + 1 && forall j {:trigger row[j]} :: 0 <= j <= |t| ==> row[j] == j
    ensures IsRow(row, s, 0, t)
  {}

  lemma LastEntry(row: seq<nat>, s: string, t: string)
    requires IsRow(row, s, |s|, t)
    ensures row[|t|] == Distance(s, t)
  {
    assert s[..|s|] == s && t[..|t|] == t;
  }

  lemma RowAt(row: seq<nat>, s: string, i: nat, t: string, j: nat)
    requires i <= |s| && IsRow(row, s, i, t) && 1 <= j <= |t|
    ensures |row| == |t| + 1 && row[j] == Distance(s[..i], t[..j]) && row[j - 1] == Distance(s[..i], t[..j - 1])
  {}

  ghost predicate RowTo(row: seq<nat>, s: string, t: string, n: nat)
  {
    |row| == |t| + 1 && n <= |row| && forall j {:trigger row[j]} :: 0 <= j < n ==> row[j] == Distance(s, t[..j])
  }

  lemma RowBegins(row: seq<nat>, s: string, t: string)
    requires |row| == |t| + 1 && row[0] == |s|
    ensures RowTo(row, s, t, 1)
  {
    DistanceEmpty(s);
    assert t[..0] == [];
  }

  lemma RowGrows(row: seq<nat>, s: string, t: string, n: nat, v: nat)
    requires RowTo(row, s, t, n) && n <= |t| && v == Distance(s, t[..n])
    ensures RowTo(row[n := v], s, t, n + 1)
  {
    hide Distance;
  }

  lemma RowEnds(row: seq<nat>, s: string, i: nat, t: string)
    requires i <= |s| && RowTo(row, s[..i], t, |t| + 1)
    ensures IsRow(row, s, i, t)
  {}

  lemma RowLast(row: seq<nat>, s: string, t: string, n: nat)
    requires RowTo(row, s, t, n) && n >= 1
    ensures row[n - 1] == Distance(s, t[..n - 1])
  {}

  method FillRow(col: array<nat>, prevCol: array<nat>, s0: string, i: nat, s1: string)
    requires i <= |s0| && col.Length == prevCol.Length == |s1| + 1 && col != prevCol
    requires IsRow(prevCol[..], s0, if i == 0 then 0 else i - 1, s1)
    modifies col
    ensures IsRow(col[..], s0, i, s1)
  {
    hide Distance, IsRow, RowTo, Min;
    ghost var above := prevCol[..];
    col[0] := i;
    RowBegins(col[..], s0[..i], s1);
    for j := 1 to |s1| + 1
      invariant RowTo(col[..], s0[..i], s1, j)
    {
      ghost var row := col[..];
      RowAt(above, s0, if i == 0 then 0 else i - 1, s1, j);
      RowLast(row, s0[..i], s1, j);
      NextEntry(s0, i, s1, j, prevCol[j], col[j - 1], prevCol[j - 1]);
      col[j] := Min(Min(1 + col[j - 1], 1 + prevCol[j]), prevCol[j - 1] + if i > 0 && s0[i - 1] == s1[j - 1] then 0 else 1);
      RowGrows(row, s0[..i], s1, j, col[j]);
      assert col[..] == row[j := col[j]];
    }
    RowEnds(col[..], s0, i, s1);
  }

  /** The score is a number from 0 to 1, and 1 only for equal strings. */
  lemma ScoreRange(s: string, t: string, longer: nat, v: real)
    requires longer == (if |s| < |t| then |t| else |s|) && longer > 0 && v == 1.0 - Distance(s, t) as real / longer as real
    ensures 0.0 <= v <= 1.0 && (v == 1.0 <==> s == t)
  {
    hide Distance;
    AtMostLonger(s, t);
    ZeroOnlyForEqual(s, t);
    RatioRange(Distance(s, t), longer);
  }

  lemma RatioRange(d: nat, n: nat)
    requires d <= n && n > 0
    ensures 0.0 <= d as real / n as real <= 1.0 && (d as real / n as real == 0.0 <==> d == 0)
  {}
}
