/** Greedy decoding with token durations. */
module TdtDecode {
  import opened Bits

  const LOWEST: real := -10000000000.0

  /** What the model fixes: the blank's number, the frames a duration index stands for, and the tokens allowed per frame. */
  datatype Model = Model(blank: nat, durations: seq<int>, maxTokens: int, subsampling: nat)

  predicate ValidModel(m: Model)
  {
    m.durations != [] && forall i {:trigger m.durations[i]} :: 0 <= i < |m.durations| ==> m.durations[i] >= 0
  }

  datatype TokenData = TokenData(id: nat, durationIdx: nat, duration: nat, frame: nat, plog: real, t0: int, t1: int)

  /** What the joint network gives for a call: scores for every token, the blank, and every duration; or a failure. */
  datatype Joint = Logits(scores: seq<real>) | Failed

  ghost predicate Answers(joint: nat -> Joint, m: Model)
  {
    forall c: nat {:trigger joint(c)} :: joint(c).Logits? ==> |joint(c).scores| == m.blank + 1 + |m.durations|
  }

  // ----- picking the best -----

  /** The first of the largest scores; 0 when none is above the floor. */
  ghost predicate Best(scores: seq<real>, b: nat)
  {
    && b < |scores|
    && (forall i {:trigger scores[i]} :: 0 <= i < |scores| ==> scores[i] <= LOWEST || scores[i] <= scores[b])
    && (forall i {:trigger scores[i]} :: 0 <= i < b ==> scores[i] < scores[b])
    && (scores[b] <= LOWEST ==> b == 0)
  }

  /** The first of the largest scores. */
  ghost predicate FirstMax(scores: seq<real>, b: nat)
  {
    && b < |scores|
    && (forall i {:trigger scores[i]} :: 0 <= i < |scores| ==> scores[i] <= scores[b])
    && forall i {:trigger scores[i]} :: 0 <= i < b ==> scores[i] < scores[b]
  }

  /** With any score above -10^10 the best is the first largest, without one it is the first of all. */
  ghost predicate Picked(scores: seq<real>, b: nat)
  {
    b < |scores| &&
    if exists i {:trigger scores[i]} :: 0 <= i < |scores| && scores[i] > -10000000000.0 then FirstMax(scores, b) else b == 0
  }

  lemma BestMeans(scores: seq<real>, b: nat)
    ensures Best(scores, b) <==> Picked(scores, b)
  {
    if Best(scores, b) {
      assert scores[b] == scores[b];
    }
    if Picked(scores, b) {
      assert scores[b] == scores[b];
    }
  }

  method PickBest(scores: seq<real>) returns (b: nat, max: real)
    requires scores != []
    ensures Best(scores, b) && Picked(scores, b) && max == if scores[b] > -10000000000.0 then scores[b] else -10000000000.0
  {
    b, max := 0, LOWEST;
    for i := 0 to |scores|
      invariant b < |scores| && (i == 0 ==> b == 0) && (b > 0 ==> b < i) && LOWEST <= max
      invariant max == if i > 0 && scores[b] > LOWEST then scores[b] else LOWEST
      invariant forall k {:trigger scores[k]} :: 0 <= k < i ==> scores[k] <= max
      invariant forall k {:trigger scores[k]} :: 0 <= k < b ==> scores[k] < scores[b]
      invariant max == LOWEST ==> b == 0
    {
      if scores[i] > max {
        max := scores[i];
        b := i;
      }
    }
    BestMeans(scores, b);
  }

  lemma BestUnique(scores: seq<real>, b: nat, b': nat)
    requires Best(scores, b) && Best(scores, b')
    ensures b == b'
  {
    assert scores[b] == scores[b] && scores[b'] == scores[b'];
  }

  // ----- what is emitted -----

  function Bound(m: Model): nat
  {
    if m.maxTokens < 1 then 1 else m.maxTokens
  }

  /** Token `x` was the best at call `c`, with the best duration there. */
  ghost predicate Chosen(joint: nat -> Joint, m: Model, c: nat, x: TokenData)
  {
    && joint(c).Logits? && |joint(c).scores| == m.blank + 1 + |m.durations|
    && x.id != m.blank && x.durationIdx < |m.durations| && x.duration == m.durations[x.durationIdx]
    && Best(joint(c).scores[..m.blank + 1], x.id) && Best(joint(c).scores[m.blank + 1..], x.durationIdx)
    && x.t0 == Times(x.frame, m.subsampling) && x.t1 == Times(x.frame + x.duration, m.subsampling)
  }

  /** The choice and its times in plain numbers. */
  ghost predicate Taken(joint: nat -> Joint, m: Model, c: nat, x: TokenData)
  {
    && joint(c).Logits? && |joint(c).scores| == m.blank + 1 + |m.durations|
    && x.id != m.blank && Picked(joint(c).scores[..m.blank + 1], x.id)
    && Picked(joint(c).scores[m.blank + 1..], x.durationIdx) && x.duration == m.durations[x.durationIdx]
    && x.t0 == x.frame * m.subsampling && x.t1 == (x.frame + x.duration) * m.subsampling
  }

  ghost predicate AllTaken(joint: nat -> Joint, m: Model, data: seq<TokenData>, cs: seq<nat>)
  {
    |data| == |cs| && forall i {:trigger data[i]} :: 0 <= i < |data| ==> Taken(joint, m, cs[i], data[i])
  }

  lemma ChosenTaken(joint: nat -> Joint, m: Model, c: nat, x: TokenData)
    requires Chosen(joint, m, c, x)
    ensures Taken(joint, m, c, x)
  {
    BestMeans(joint(c).scores[..m.blank + 1], x.id);
    BestMeans(joint(c).scores[m.blank + 1..], x.durationIdx);
    hide Best, Picked;
  }

  lemma MatchedTaken(joint: nat -> Joint, m: Model, frames: int, tokens: seq<nat>, data: seq<TokenData>, cs: seq<nat>)
    requires Matched(joint, m, frames, tokens, data, cs)
    ensures AllTaken(joint, m, data, cs)
  {
    hide Chosen, Taken;
    forall i {:trigger data[i]} | 0 <= i < |data| ensures Taken(joint, m, cs[i], data[i]) {
      ChosenTaken(joint, m, cs[i], data[i]);
    }
  }

  function Times(a: int, b: nat): int
  {
    a * b
  }

  /** Each token is the best choice of its call. */
  ghost predicate Matched(joint: nat -> Joint, m: Model, frames: int, tokens: seq<nat>, data: seq<TokenData>, cs: seq<nat>)
  {
    && |tokens| == |data| == |cs|
    && forall i {:trigger data[i]} :: 0 <= i < |data| ==> data[i].id == tokens[i] && data[i].frame < frames && Chosen(joint, m, cs[i], data[i])
  }

  ghost predicate Rising(cs: seq<nat>)
  {
    forall i, j {:trigger cs[i], cs[j]} :: 0 <= i < j < |cs| ==> cs[i] < cs[j]
  }

  /** A token starts no earlier than the duration of any token before it ends. */
  ghost predicate Spaced(data: seq<TokenData>)
  {
    forall i, j {:trigger data[i], data[j]} :: 0 <= i < j < |data| ==> data[i].frame + data[i].duration <= data[j].frame
  }

  /** No frame has more than `b` tokens. */
  ghost predicate Sparse(data: seq<TokenData>, b: nat)
  {
    forall i, j {:trigger data[i], data[j]} :: 0 <= i && j < |data| && i + b <= j ==> data[i].frame < data[j].frame
  }

  ghost predicate Emitted(joint: nat -> Joint, m: Model, frames: int, tokens: seq<nat>, data: seq<TokenData>, cs: seq<nat>)
  {
    Matched(joint, m, frames, tokens, data, cs) && Rising(cs) && Spaced(data) && Sparse(data, Bound(m))
  }

  /** Where the loop stands: frame `t`, of which `e` tokens are out, after `calls` calls. */
  ghost predicate Standing(m: Model, data: seq<TokenData>, cs: seq<nat>, t: nat, e: nat, calls: nat)
  {
    && e < Bound(m) && e <= |data|
    && (forall i {:trigger cs[i]} :: 0 <= i < |cs| ==> cs[i] < calls)
    && (forall i {:trigger data[i]} :: 0 <= i < |data| ==> data[i].frame + data[i].duration <= t)
    && (forall i {:trigger data[i]} :: 0 <= i < |data| - e ==> data[i].frame < t)
    && calls <= Times(t, Bound(m)) + e
  }

  lemma Advance(m: Model, data: seq<TokenData>, cs: seq<nat>, t: nat, e: nat, calls: nat, step: nat)
    requires Standing(m, data, cs, t, e, calls) && step > 0
    ensures Standing(m, data, cs, t + step, 0, calls + 1)
  {
    Distribute(t, step, Bound(m));
    AtLeast(step, Bound(m));
  }

  lemma Append(joint: nat -> Joint, m: Model, frames: int, tokens: seq<nat>, data: seq<TokenData>, cs: seq<nat>, t: nat, e: nat, calls: nat, x: TokenData)
    requires Emitted(joint, m, frames, tokens, data, cs) && Standing(m, data, cs, t, e, calls) && |data| == |cs|
    requires Chosen(joint, m, calls, x) && x.frame == t < frames
    ensures Emitted(joint, m, frames, tokens + [x.id], data + [x], cs + [calls])
    ensures x.duration > 0 ==> Standing(m, data + [x], cs + [calls], t + x.duration, 0, calls + 1)
    ensures x.duration == 0 && e + 1 < Bound(m) ==> Standing(m, data + [x], cs + [calls], t, e + 1, calls + 1)
    ensures x.duration == 0 && e + 1 >= Bound(m) ==> Standing(m, data + [x], cs + [calls], t + 1, 0, calls + 1)
  {
    hide Chosen, Times;
    AppendEmitted(joint, m, frames, tokens, data, cs, t, e, calls, x);
    Counts(t, x.duration, e, calls, Bound(m));
    hide Emitted, Bound;
  }

  lemma Counts(t: nat, d: nat, e: nat, calls: nat, b: nat)
    requires calls <= Times(t, b) + e && e < b
    ensures calls + 1 <= Times(t + 1, b) && (d > 0 ==> calls + 1 <= Times(t + d, b))
  {
    Distribute(t, 1, b);
    if d > 0 {
      Distribute(t, d, b);
      AtLeast(d, b);
    }
  }

  lemma AppendEmitted(joint: nat -> Joint, m: Model, frames: int, tokens: seq<nat>, data: seq<TokenData>, cs: seq<nat>, t: nat, e: nat, calls: nat, x: TokenData)
    requires Emitted(joint, m, frames, tokens, data, cs) && Standing(m, data, cs, t, e, calls)
    requires Chosen(joint, m, calls, x) && x.frame == t < frames
    ensures Emitted(joint, m, frames, tokens + [x.id], data + [x], cs + [calls])
  {
    hide Chosen, Times, Bound;
    AppendMatched(joint, m, frames, tokens, data, cs, calls, x);
    AppendRising(cs, calls);
    AppendSpaced(data, x);
    AppendSparse(data, Bound(m), x, e);
    hide Matched, Rising, Spaced, Sparse;
  }

  lemma AppendMatched(joint: nat -> Joint, m: Model, frames: int, tokens: seq<nat>, data: seq<TokenData>, cs: seq<nat>, calls: nat, x: TokenData)
    requires Matched(joint, m, frames, tokens, data, cs) && Chosen(joint, m, calls, x) && x.frame < frames
    ensures Matched(joint, m, frames, tokens + [x.id], data + [x], cs + [calls])
  {
    hide Chosen;
  }

  lemma AppendRising(cs: seq<nat>, c: nat)
    requires Rising(cs) && forall i {:trigger cs[i]} :: 0 <= i < |cs| ==> cs[i] < c
    ensures Rising(cs + [c])
  {}

  lemma AppendSpaced(data: seq<TokenData>, x: TokenData)
    requires Spaced(data) && forall i {:trigger data[i]} :: 0 <= i < |data| ==> data[i].frame + data[i].duration <= x.frame
    ensures Spaced(data + [x])
  {}

  lemma AppendSparse(data: seq<TokenData>, b: nat, x: TokenData, e: nat)
    requires Sparse(data, b) && e < b && forall i {:trigger data[i]} :: 0 <= i < |data| - e ==> data[i].frame < x.frame
    ensures Sparse(data + [x], b)
  {}

  // ----- the run, call by call -----

  /** What a call found: the frame it looked at, the tokens already out there, the best token and the best duration. */
  datatype Visit = Visit(frame: nat, emitted: nat, token: nat, duration: nat)

  /** Where the next call looks: a blank always moves on, a token by its duration, or by one when the frame is full. */
  function Next(m: Model, v: Visit): (nat, nat)
  {
    if v.token == m.blank then (v.frame + if v.duration == 0 then 1 else v.duration, 0)
    else if v.duration > 0 then (v.frame + v.duration, 0)
    else if v.emitted + 1 >= m.maxTokens then (v.frame + 1, 0)
    else (v.frame, v.emitted + 1)
  }

  ghost predicate Found(joint: nat -> Joint, m: Model, frames: int, c: nat, v: Visit)
  {
    && joint(c).Logits? && |joint(c).scores| == m.blank + 1 + |m.durations| && v.frame < frames
    && Best(joint(c).scores[..m.blank + 1], v.token)
    && exists d {:trigger m.durations[d]} :: 0 <= d < |m.durations| && Best(joint(c).scores[m.blank + 1..], d) && v.duration == m.durations[d]
  }

  function After(m: Model, visits: seq<Visit>): (nat, nat)
  {
    if visits == [] then (0, 0) else Next(m, visits[|visits| - 1])
  }

  /** The calls of a run, from the first frame on. */
  ghost predicate Trace(joint: nat -> Joint, m: Model, frames: int, visits: seq<Visit>)
    decreases |visits|
  {
    visits != [] ==>
      var n := |visits| - 1;
      && Trace(joint, m, frames, visits[..n]) && Found(joint, m, frames, n, visits[n])
      && After(m, visits[..n]) == (visits[n].frame, visits[n].emitted)
  }

  /** The calls that found a token, in order. */
  function TokenCalls(m: Model, visits: seq<Visit>): seq<nat>
  {
    if visits == [] then []
    else
      var n := |visits| - 1;
      TokenCalls(m, visits[..n]) + if visits[n].token == m.blank then [] else [n]
  }

  lemma MoreVisits(joint: nat -> Joint, m: Model, frames: int, visits: seq<Visit>, v: Visit)
    requires Trace(joint, m, frames, visits) && Found(joint, m, frames, |visits|, v) && After(m, visits) == (v.frame, v.emitted)
    ensures Trace(joint, m, frames, visits + [v]) && After(m, visits + [v]) == Next(m, v)
    ensures TokenCalls(m, visits + [v]) == TokenCalls(m, visits) + if v.token == m.blank then [] else [|visits|]
  {
    hide Found, Next;
    assert (visits + [v])[..|visits|] == visits;
  }

  /** Two complete runs of the same answers are the same run. */
  lemma {:induction false} TraceUnique(joint: nat -> Joint, m: Model, frames: int, visits: seq<Visit>, visits': seq<Visit>)
    requires Trace(joint, m, frames, visits) && Trace(joint, m, frames, visits') && |visits| == |visits'|
    ensures visits == visits'
    decreases |visits|
  {
    if visits != [] {
      var n := |visits| - 1;
      TraceUnique(joint, m, frames, visits[..n], visits'[..n]);
      FoundUnique(joint, m, frames, n, visits[n], visits'[n]);
      assert visits == visits[..n] + [visits[n]] && visits' == visits'[..n] + [visits'[n]];
    }
  }

  lemma FoundUnique(joint: nat -> Joint, m: Model, frames: int, c: nat, v: Visit, v': Visit)
    requires Found(joint, m, frames, c, v) && Found(joint, m, frames, c, v')
    ensures v.token == v'.token && v.duration == v'.duration
  {
    BestUnique(joint(c).scores[..m.blank + 1], v.token, v'.token);
    var d :| 0 <= d < |m.durations| && Best(joint(c).scores[m.blank + 1..], d) && v.duration == m.durations[d];
    var d' :| 0 <= d' < |m.durations| && Best(joint(c).scores[m.blank + 1..], d') && v'.duration == m.durations[d'];
    BestUnique(joint(c).scores[m.blank + 1..], d, d');
  }

  /** The frame of each token is the one its call looked at. */
  ghost predicate AtTheirFrames(data: seq<TokenData>, cs: seq<nat>, visits: seq<Visit>)
  {
    |data| == |cs| && forall i {:trigger AtItsFrame(data[i], cs[i], visits)} :: 0 <= i < |data| ==> AtItsFrame(data[i], cs[i], visits)
  }

  ghost predicate AtItsFrame(x: TokenData, c: nat, visits: seq<Visit>)
  {
    c < |visits| && x.frame == visits[c].frame
  }

  lemma MoreFrames(data: seq<TokenData>, cs: seq<nat>, visits: seq<Visit>, v: Visit, x: TokenData)
    requires AtTheirFrames(data, cs, visits) && x.frame == v.frame
    ensures AtTheirFrames(data, cs, visits + [v]) && AtTheirFrames(data + [x], cs + [|visits|], visits + [v])
  {
    forall i | 0 <= i < |data| ensures AtItsFrame(data[i], cs[i], visits + [v]) {
      assert AtItsFrame(data[i], cs[i], visits);
    }
    assert AtItsFrame(x, |visits|, visits + [v]);
  }

  /** All that holds between calls. */
  ghost predicate Between(joint: nat -> Joint, m: Model, frames: int, tokens: seq<nat>, data: seq<TokenData>, cs: seq<nat>,
    visits: seq<Visit>, t: nat, e: nat)
  {
    && Emitted(joint, m, frames, tokens, data, cs) && Standing(m, data, cs, t, e, |visits|) && |data| == |cs|
    && Trace(joint, m, frames, visits) && cs == TokenCalls(m, visits) && After(m, visits) == (t, e)
    && AtTheirFrames(data, cs, visits)
  }

  lemma BlankCall(joint: nat -> Joint, m: Model, frames: int, tokens: seq<nat>, data: seq<TokenData>, cs: seq<nat>,
    visits: seq<Visit>, t: nat, e: nat, v: Visit)
    requires Between(joint, m, frames, tokens, data, cs, visits, t, e) && Found(joint, m, frames, |visits|, v)
    requires v.frame == t && v.emitted == e && v.token == m.blank
    ensures Between(joint, m, frames, tokens, data, cs, visits + [v], t + if v.duration == 0 then 1 else v.duration, 0)
    ensures Bound(m) > 0
  {
    hide Trace, Found, After, TokenCalls, AtTheirFrames, Emitted, Standing;
    MoreVisits(joint, m, frames, visits, v);
    NextOf(m, v);
    Advance(m, data, cs, t, e, |visits|, if v.duration == 0 then 1 else v.duration);
    MoreFrames(data, cs, visits, v, TokenData(0, 0, 0, t, 0.0, 0, 0));
  }

  lemma TokenCall(joint: nat -> Joint, m: Model, frames: int, tokens: seq<nat>, data: seq<TokenData>, cs: seq<nat>,
    visits: seq<Visit>, t: nat, e: nat, v: Visit, x: TokenData)
    requires Between(joint, m, frames, tokens, data, cs, visits, t, e) && Found(joint, m, frames, |visits|, v)
    requires v.frame == t && v.emitted == e && v.token == x.id != m.blank && v.duration == x.duration
    requires Chosen(joint, m, |visits|, x) && x.frame == t < frames
    ensures var next := Next(m, v);
      Between(joint, m, frames, tokens + [x.id], data + [x], cs + [|visits|], visits + [v], next.0, next.1)
  {
    hide Trace, Found, After, TokenCalls, AtTheirFrames, Emitted, Standing, Chosen, Bound;
    MoreVisits(joint, m, frames, visits, v);
    NextOf(m, v);
    BoundMeans(m, e + 1);
    Append(joint, m, frames, tokens, data, cs, t, e, |visits|, x);
    MoreFrames(data, cs, visits, v, x);
  }

  /** From one call to the next: on by a positive duration; by one after a blank without, or when the frame is full. */
  ghost predicate StepsTo(m: Model, v: Visit, w: Visit)
  {
    && w.frame == v.frame + (
      if v.duration > 0 then v.duration
      else if v.token == m.blank || v.emitted + 1 >= m.maxTokens then 1 else 0)
    && w.emitted == if w.frame == v.frame then v.emitted + 1 else 0
  }

  ghost predicate Stepped(m: Model, visits: seq<Visit>)
  {
    && (visits != [] ==> visits[0].frame == 0 && visits[0].emitted == 0)
    && forall i {:trigger visits[i]} :: 0 < i < |visits| ==> StepsTo(m, visits[i - 1], visits[i])
  }

  lemma {:induction false} TraceSteps(joint: nat -> Joint, m: Model, frames: int, visits: seq<Visit>)
    requires Trace(joint, m, frames, visits)
    ensures Stepped(m, visits)
  {
    hide Found, StepsTo, Next;
    if visits != [] {
      var n := |visits| - 1;
      var init := visits[..n];
      TraceSteps(joint, m, frames, init);
      assert forall i {:trigger visits[i]} :: 0 <= i < n ==> visits[i] == init[i];
      if n > 0 {
        NextSteps(m, visits[n - 1], visits[n]);
      }
    }
  }

  lemma NextSteps(m: Model, v: Visit, w: Visit)
    requires Next(m, v) == (w.frame, w.emitted)
    ensures StepsTo(m, v, w)
  {}

  /** What a run comes to: its tokens, its steps, how many tokens a frame can have, and how many calls there can be. */
  ghost predicate InPlainTerms(joint: nat -> Joint, m: Model, frames: int, data: seq<TokenData>, cs: seq<nat>, visits: seq<Visit>, calls: nat)
  {
    && AllTaken(joint, m, data, cs) && Stepped(m, visits)
    && Sparse(data, if m.maxTokens < 1 then 1 else m.maxTokens)
    && calls <= if frames <= 0 then 0 else frames * (if m.maxTokens < 1 then 1 else m.maxTokens)
  }

  lemma PlainTerms(joint: nat -> Joint, m: Model, frames: int, tokens: seq<nat>, data: seq<TokenData>, cs: seq<nat>, visits: seq<Visit>, calls: nat)
    requires Emitted(joint, m, frames, tokens, data, cs) && Trace(joint, m, frames, visits)
    requires calls <= if frames <= 0 then 0 else Times(frames, Bound(m))
    ensures InPlainTerms(joint, m, frames, data, cs, visits, calls)
  {
    hide Matched, Sparse, Stepped, AllTaken, Trace, Rising, Spaced;
    MatchedTaken(joint, m, frames, tokens, data, cs);
    TraceSteps(joint, m, frames, visits);
  }

  // ----- predictions -----

  /** The prediction at the start and the one after each token succeeded. */
  ghost predicate Predicted(m: Model, predict: nat -> bool, visits: seq<Visit>)
  {
    predict(0) && forall i {:trigger visits[i]} :: 0 <= i < |visits| && visits[i].token != m.blank ==> predict(i + 1)
  }

  lemma FirstPredicted(m: Model, predict: nat -> bool)
    ensures Predicted(m, predict, []) <==> predict(0)
  {}

  lemma MorePredicted(m: Model, predict: nat -> bool, visits: seq<Visit>, v: Visit)
    requires Predicted(m, predict, visits)
    ensures Predicted(m, predict, visits + [v]) <==> v.token == m.blank || predict(|visits| + 1)
    ensures (visits + [v])[..|visits + [v]| - 1] == visits
  {
    if Predicted(m, predict, visits + [v]) {
      assert (visits + [v])[|visits|] == v;
    }
  }

  // ----- the loop -----

  class State {
    var decodedTokens: seq<nat>
    var decodedTokenData: seq<TokenData>

    constructor ()
      ensures decodedTokens == [] && decodedTokenData == []
    {
      decodedTokens, decodedTokenData := [], [];
    }

    method CreateTokenData(m: Model, id: nat, durationIdx: nat, duration: nat, frame: nat, logit: real) returns (x: TokenData)
      ensures x == TokenData(id, durationIdx, duration, frame, logit, Times(frame, m.subsampling), Times(frame + duration, m.subsampling))
    {
      x := TokenData(id, durationIdx, duration, frame, logit, Times(frame, m.subsampling), Times(frame + duration, m.subsampling));
    }

    /** The loop; `tokens` and `data` are what it appends. */
    method Run(m: Model, frames: int, joint: nat -> Joint, predict: nat -> bool)
      returns (ok: bool, ghost tokens: seq<nat>, ghost data: seq<TokenData>, ghost cs: seq<nat>, ghost calls: nat, ghost visits: seq<Visit>)
      requires ValidModel(m) && Answers(joint, m)
      modifies this
      ensures decodedTokens == old(decodedTokens) + tokens && decodedTokenData == old(decodedTokenData) + data
      ensures Emitted(joint, m, frames, tokens, data, cs)
      ensures calls <= if frames <= 0 then 0 else Times(frames, Bound(m))
      ensures Trace(joint, m, frames, visits) && cs == TokenCalls(m, visits) && |visits| <= calls
      ensures AtTheirFrames(data, cs, visits)
      ensures ok <==> calls == |visits| && Predicted(m, predict, visits)
      ensures ok ==> After(m, visits).0 >= frames
      ensures calls != |visits| ==> calls == |visits| + 1 && joint(|visits|).Failed?
      ensures visits != [] ==> Predicted(m, predict, visits[..|visits| - 1])
    {
      hide Predicted, Picked, Between, Found, Chosen, Best, Times, Bound, Next, Emitted, Matched, Rising, Spaced, Sparse, Standing, Trace, After, TokenCalls,
        AtTheirFrames, AtItsFrame;
      var t, tokensEmitted := 0, 0;
      var call := 0;
      tokens, data := [], [];
      cs, calls, visits := [], 0, [];
      Begin(joint, m, frames);
      EndOfRun(joint, m, frames, [], [], [], [], 0, 0);
      var predicted := predict(0);
      FirstPredicted(m, predict);
      if !predicted {
        return false, tokens, data, cs, calls, visits;
      }
      while t < frames
        invariant decodedTokens == old(decodedTokens) + tokens && decodedTokenData == old(decodedTokenData) + data
        invariant Between(joint, m, frames, tokens, data, cs, visits, t, tokensEmitted)
        invariant Predicted(m, predict, visits) && (visits != [] ==> Predicted(m, predict, visits[..|visits| - 1]))
        invariant call == calls == |visits| && calls <= (if frames <= 0 then 0 else Times(frames, Bound(m))) && tokensEmitted < Bound(m)
        decreases frames - t, Bound(m) - tokensEmitted
      {
        EndOfRun(joint, m, frames, tokens, data, cs, visits, t, tokensEmitted);
        calls := calls + 1;
        var answer := joint(call);
        if answer.Failed? {
          return false, tokens, data, cs, calls, visits;
        }
        var nVocab := m.blank + 1;
        var bestToken, maxLogit := PickBest(answer.scores[..nVocab]);
        var bestDuration, maxDuration := PickBest(answer.scores[nVocab..]);
        var duration := m.durations[bestDuration];
        ghost var v := Visit(t, tokensEmitted, bestToken, duration);
        CallFound(joint, m, frames, call, v, bestDuration);
        MorePredicted(m, predict, visits, v);
        if bestToken == m.blank {
          BlankCall(joint, m, frames, tokens, data, cs, visits, t, tokensEmitted, v);
          visits := visits + [v];
          if duration == 0 {
            duration := 1;
          }
          t := t + duration;
          tokensEmitted := 0;
          call := call + 1;
          continue;
        }
        var x := CreateTokenData(m, bestToken, bestDuration, duration, t, maxLogit);
        ghost var t' := if duration > 0 then t + duration else if tokensEmitted + 1 >= m.maxTokens then t + 1 else t;
        ghost var e' := if duration == 0 && tokensEmitted + 1 < m.maxTokens then tokensEmitted + 1 else 0;
        TokenStep(joint, m, frames, tokens, data, cs, visits, t, tokensEmitted, v, x, t', e');
        decodedTokens := decodedTokens + [bestToken];
        decodedTokenData := decodedTokenData + [x];
        tokens, data, cs, visits := tokens + [bestToken], data + [x], cs + [call], visits + [v];
        assert decodedTokens == old(decodedTokens) + tokens && decodedTokenData == old(decodedTokenData) + data;
        call := call + 1;
        predicted := predict(call);
        if !predicted {
          return false, tokens, data, cs, calls, visits;
        }
        if duration > 0 {
          t := t + duration;
          tokensEmitted := 0;
          continue;
        }
        tokensEmitted := tokensEmitted + 1;
        if tokensEmitted >= m.maxTokens {
          t := t + 1;
          tokensEmitted := 0;
        }
      }
      EndOfRun(joint, m, frames, tokens, data, cs, visits, t, tokensEmitted);
      ok := true;
    }

    /** Whatever the network answers, the loop ends; `predict` says whether the prediction after each call succeeds. */
    method Decode(m: Model, frames: int, joint: nat -> Joint, predict: nat -> bool)
      returns (ok: bool, ghost cs: seq<nat>, ghost calls: nat, ghost visits: seq<Visit>)
      requires m.durations != [] && (forall i {:trigger m.durations[i]} :: 0 <= i < |m.durations| ==> m.durations[i] >= 0) && Answers(joint, m)
      modifies this
      ensures |old(decodedTokens)| <= |decodedTokens| && |old(decodedTokenData)| <= |decodedTokenData|
      ensures decodedTokens[..|old(decodedTokens)|] == old(decodedTokens)
      ensures decodedTokenData[..|old(decodedTokenData)|] == old(decodedTokenData)
      ensures Emitted(joint, m, frames, decodedTokens[|old(decodedTokens)|..], decodedTokenData[|old(decodedTokenData)|..], cs)
      ensures calls <= if frames <= 0 then 0 else Times(frames, Bound(m))
      ensures InPlainTerms(joint, m, frames, decodedTokenData[|old(decodedTokenData)|..], cs, visits, calls)
      ensures Trace(joint, m, frames, visits) && cs == TokenCalls(m, visits) && |visits| <= calls
      ensures AtTheirFrames(decodedTokenData[|old(decodedTokenData)|..], cs, visits)
      ensures ok <==> calls == |visits| && Predicted(m, predict, visits)
      ensures ok ==> After(m, visits).0 >= frames
      ensures calls != |visits| ==> calls == |visits| + 1 && joint(|visits|).Failed?
      ensures visits != [] ==> Predicted(m, predict, visits[..|visits| - 1])
    {
      hide Emitted, Trace, InPlainTerms, Predicted, AtTheirFrames, TokenCalls, After, Times;
      ghost var tokens, data;
      ok, tokens, data, cs, calls, visits := Run(m, frames, joint, predict);
      Suffix(old(decodedTokens), tokens);
      Suffix(old(decodedTokenData), data);
      PlainTerms(joint, m, frames, tokens, data, cs, visits, calls);
    }
  }

  /** A call that emits a token: what holds after it, and at `t'` and `e'`, where it leads. */
  lemma TokenStep(joint: nat -> Joint, m: Model, frames: int, tokens: seq<nat>, data: seq<TokenData>, cs: seq<nat>,
    visits: seq<Visit>, t: nat, e: nat, v: Visit, x: TokenData, t': nat, e': nat)
    requires Between(joint, m, frames, tokens, data, cs, visits, t, e) && Found(joint, m, frames, |visits|, v)
    requires v.frame == t < frames && v.emitted == e && v.token == x.id != m.blank && v.duration == x.duration
    requires joint(|visits|).Logits? && |joint(|visits|).scores| == m.blank + 1 + |m.durations|
    requires x.durationIdx < |m.durations| && x.duration == m.durations[x.durationIdx] && x.frame == t
    requires Best(joint(|visits|).scores[..m.blank + 1], x.id) && Best(joint(|visits|).scores[m.blank + 1..], x.durationIdx)
    requires x.t0 == Times(x.frame, m.subsampling) && x.t1 == Times(x.frame + x.duration, m.subsampling)
    requires t' == if v.duration > 0 then t + v.duration else if e + 1 >= m.maxTokens then t + 1 else t
    requires e' == if v.duration == 0 && e + 1 < m.maxTokens then e + 1 else 0
    ensures Between(joint, m, frames, tokens + [x.id], data + [x], cs + [|visits|], visits + [v], t', e')
    ensures Emitted(joint, m, frames, tokens + [x.id], data + [x], cs + [|visits|])
    ensures Trace(joint, m, frames, visits + [v]) && cs + [|visits|] == TokenCalls(m, visits + [v])
    ensures AtTheirFrames(data + [x], cs + [|visits|], visits + [v]) && e' < Bound(m)
  {
    hide *;
    TokenChosen(joint, m, |visits|, x);
    TokenCall(joint, m, frames, tokens, data, cs, visits, t, e, v, x);
    NextOf(m, v);
    EndOfRun(joint, m, frames, tokens + [x.id], data + [x], cs + [|visits|], visits + [v], t', e');
  }

  /** What the run promises wherever it stops. */
  lemma EndOfRun(joint: nat -> Joint, m: Model, frames: int, tokens: seq<nat>, data: seq<TokenData>, cs: seq<nat>,
    visits: seq<Visit>, t: nat, e: nat)
    requires Between(joint, m, frames, tokens, data, cs, visits, t, e)
    ensures Emitted(joint, m, frames, tokens, data, cs) && |data| == |cs| == |tokens| && e < Bound(m)
    ensures Trace(joint, m, frames, visits) && cs == TokenCalls(m, visits) && After(m, visits) == (t, e)
    ensures AtTheirFrames(data, cs, visits)
    ensures t < frames ==> |visits| + 1 <= Times(frames, Bound(m))
    ensures visits == [] ==> |visits| <= if frames <= 0 then 0 else Times(frames, Bound(m))
  {
    FrameBound(m, frames, data, cs, t, e, |visits|);
    hide Trace, After, TokenCalls, AtTheirFrames, Chosen, Times;
  }

  lemma CallFound(joint: nat -> Joint, m: Model, frames: int, c: nat, v: Visit, d: nat)
    requires joint(c).Logits? && |joint(c).scores| == m.blank + 1 + |m.durations| && v.frame < frames && d < |m.durations|
    requires Best(joint(c).scores[..m.blank + 1], v.token) && Best(joint(c).scores[m.blank + 1..], d) && v.duration == m.durations[d]
    ensures Found(joint, m, frames, c, v)
  {
    hide Best;
  }

  lemma TokenChosen(joint: nat -> Joint, m: Model, c: nat, x: TokenData)
    requires joint(c).Logits? && |joint(c).scores| == m.blank + 1 + |m.durations| && x.id != m.blank && x.durationIdx < |m.durations|
    requires x.duration == m.durations[x.durationIdx]
    requires Best(joint(c).scores[..m.blank + 1], x.id) && Best(joint(c).scores[m.blank + 1..], x.durationIdx)
    requires x.t0 == Times(x.frame, m.subsampling) && x.t1 == Times(x.frame + x.duration, m.subsampling)
    ensures Chosen(joint, m, c, x)
  {
    hide Best, Times;
  }

  lemma Suffix<T>(a: seq<T>, b: seq<T>)
    ensures (a + b)[..|a|] == a && (a + b)[|a|..] == b
  {}

  lemma BoundMeans(m: Model, e: nat)
    requires e >= 1
    ensures e >= m.maxTokens <==> e >= Bound(m)
  {}

  lemma NextOf(m: Model, v: Visit)
    ensures v.token == m.blank ==> Next(m, v) == (v.frame + if v.duration == 0 then 1 else v.duration, 0)
    ensures v.token != m.blank && v.duration > 0 ==> Next(m, v) == (v.frame + v.duration, 0)
    ensures v.token != m.blank && v.duration == 0 ==> Next(m, v) == if v.emitted + 1 >= m.maxTokens then (v.frame + 1, 0) else (v.frame, v.emitted + 1)
  {}

  lemma Begin(joint: nat -> Joint, m: Model, frames: int)
    ensures Between(joint, m, frames, [], [], [], [], 0, 0)
  {}

  /** Another call stays within the bound on all calls. */
  lemma FrameBound(m: Model, frames: int, data: seq<TokenData>, cs: seq<nat>, t: nat, e: nat, calls: nat)
    requires calls == 0 || Standing(m, data, cs, t, e, calls)
    ensures Standing(m, data, cs, t, e, calls) && t < frames ==> calls + 1 <= Times(frames, Bound(m))
    ensures frames > 0 ==> 0 <= Times(frames, Bound(m))
  {
    if frames > 0 {
      AtLeast(frames, Bound(m));
    }
    if t < frames {
      Distribute(frames, t + 1, Bound(m));
      Distribute(t, 1, Bound(m));
      NotNegative(frames - t - 1, Bound(m));
    }
  }

  lemma NotNegative(a: nat, b: nat)
    ensures a * b >= 0
  {}

  // ----- times -----

  /** Intervals follow one another. */
  ghost predicate InOrder(data: seq<TokenData>)
  {
    && (forall i {:trigger data[i]} :: 0 <= i < |data| ==> 0 <= data[i].t0 <= data[i].t1)
    && forall i, j {:trigger data[i], data[j]} :: 0 <= i < j < |data| ==> data[i].t1 <= data[j].t0
  }

  lemma EmittedInOrder(joint: nat -> Joint, m: Model, frames: int, tokens: seq<nat>, data: seq<TokenData>, cs: seq<nat>)
    requires Emitted(joint, m, frames, tokens, data, cs)
    ensures InOrder(data)
  {
    hide Best, Times;
    forall i {:trigger data[i]} | 0 <= i < |data| ensures 0 <= data[i].t0 <= data[i].t1 {
      assert Chosen(joint, m, cs[i], data[i]);
      Scaled(0, data[i].frame, m.subsampling);
      Scaled(data[i].frame, data[i].frame + data[i].duration, m.subsampling);
    }
    forall i, j {:trigger data[i], data[j]} | 0 <= i < j < |data| ensures data[i].t1 <= data[j].t0 {
      assert Chosen(joint, m, cs[i], data[i]) && Chosen(joint, m, cs[j], data[j]);
      Scaled(data[i].frame + data[i].duration, data[j].frame, m.subsampling);
    }
  }

  lemma Scaled(a: nat, b: nat, s: nat)
    requires a <= b
    ensures 0 <= Times(a, s) <= Times(b, s)
  {
    Distribute(b, a, s);
    NotNegative(b - a, s);
    NotNegative(a, s);
  }

  /** The last token before `i` that is not punctuation, or -1. */
  ghost function LastSpoken(punct: nat -> bool, data: seq<TokenData>, i: nat): (k: int)
    requires i <= |data|
    ensures -1 <= k < i
    ensures k >= 0 ==> !punct(data[k].id)
    ensures forall l {:trigger data[l]} :: k < l < i ==> punct(data[l].id)
  {
    if i == 0 then -1 else if !punct(data[i - 1].id) then i - 1 else LastSpoken(punct, data, i - 1)
  }

  /** Punctuation is moved to the end of the word before it; everything else stays. */
  ghost function Refined(punct: nat -> bool, data: seq<TokenData>, i: nat): TokenData
    requires i < |data|
  {
    var k := LastSpoken(punct, data, i);
    if punct(data[i].id) && k >= 0 && data[k].t1 >= 0 then data[i].(t0 := data[k].t1, t1 := data[k].t1) else data[i]
  }

  /** Token `k` is the word before `i`: only punctuation lies between. */
  ghost predicate WordBefore(punct: nat -> bool, data: seq<TokenData>, k: nat, i: nat)
    requires i < |data|
  {
    k < i && !punct(data[k].id) && forall l {:trigger data[l]} :: k < l < i ==> punct(data[l].id)
  }

  /** Punctuation after a word is shrunk to the moment that word ends; all else stays. */
  ghost predicate Collapsed(punct: nat -> bool, was: seq<TokenData>, now: TokenData, i: nat)
    requires i < |was|
  {
    if punct(was[i].id) && exists k: nat {:trigger WordBefore(punct, was, k, i)} :: WordBefore(punct, was, k, i) then
      exists k: nat {:trigger WordBefore(punct, was, k, i)} :: WordBefore(punct, was, k, i) && now == was[i].(t0 := was[k].t1, t1 := was[k].t1)
    else now == was[i]
  }

  lemma RefinedCollapsed(punct: nat -> bool, was: seq<TokenData>, i: nat)
    requires InOrder(was) && i < |was|
    ensures Collapsed(punct, was, Refined(punct, was, i), i)
  {
    var k := LastSpoken(punct, was, i);
    if k >= 0 {
      assert WordBefore(punct, was, k, i) && was[k].t1 >= 0;
    }
  }

  method RefineTimestamps(punct: nat -> bool, tokens: array<TokenData>)
    requires InOrder(tokens[..])
    modifies tokens
    ensures forall i {:trigger tokens[i]} :: 0 <= i < tokens.Length ==> tokens[i] == Refined(punct, old(tokens[..]), i)
    ensures InOrder(tokens[..])
    ensures forall i {:trigger tokens[i]} :: 0 <= i < tokens.Length ==> Collapsed(punct, old(tokens[..]), tokens[i], i)
  {
    ghost var was := tokens[..];
    var last: int := -1;
    for i := 0 to tokens.Length
      invariant last == if LastSpoken(punct, was, i) < 0 then -1 else was[LastSpoken(punct, was, i)].t1
      invariant forall k {:trigger tokens[k]} :: 0 <= k < tokens.Length ==> tokens[k] == if k < i then Refined(punct, was, k) else was[k]
    {
      assert tokens[i] == was[i];
      if punct(tokens[i].id) {
        if last >= 0 {
          tokens[i] := tokens[i].(t0 := last, t1 := last);
        }
      } else {
        last := tokens[i].t1;
      }
    }
    RefinedInOrder(punct, was, tokens[..]);
    forall i {:trigger tokens[i]} | 0 <= i < tokens.Length ensures Collapsed(punct, was, tokens[i], i) {
      RefinedCollapsed(punct, was, i);
    }
  }

  lemma RefinedInOrder(punct: nat -> bool, was: seq<TokenData>, now: seq<TokenData>)
    requires InOrder(was) && |now| == |was| && forall i {:trigger now[i]} :: 0 <= i < |now| ==> now[i] == Refined(punct, was, i)
    ensures InOrder(now)
  {
    forall i, j {:trigger now[i], now[j]} | 0 <= i < j < |now| ensures now[i].t1 <= now[j].t0 {
      RefinedPair(punct, was, i, j);
    }
  }

  lemma RefinedPair(punct: nat -> bool, was: seq<TokenData>, i: nat, j: nat)
    requires InOrder(was) && i < j < |was|
    ensures Refined(punct, was, i).t1 <= Refined(punct, was, j).t0
  {
    var k, l := LastSpoken(punct, was, i), LastSpoken(punct, was, j);
    assert was[i].t0 <= was[i].t1 <= was[j].t0;
    if l >= 0 && l < i {
      assert punct(was[i].id);
    }
    assert k >= 0 ==> was[k].t1 <= was[i].t0;
  }
}
