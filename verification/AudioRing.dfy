/** The circular buffer between the audio callback and its reader: it keeps the latest samples since the last clear. */
module AudioRing {

  function Min(a: nat, b: nat): nat
  {
    if b < a then b else a
  }

  /** `k` places before `pos`, around the ring. */
  function Back(pos: nat, k: nat, n: nat): (i: nat)
    requires pos < n && k < n
    ensures i < n
  {
    if pos >= k + 1 then pos - 1 - k else pos + n - 1 - k
  }

  /** `k` places from `pos` on, around the ring. */
  function Ahead(pos: nat, k: nat, n: nat): (i: nat)
    requires pos < n && k <= n
    ensures i < n
  {
    if pos + k < n then pos + k else pos + k - n
  }

  /** Going back from `pos`, the ring holds the end of the history. */
  ghost predicate Holds(a: seq<real>, pos: nat, len: nat, history: seq<real>)
  {
    && pos < |a| && len == Min(|history|, |a|)
    && forall k {:trigger Back(pos, k, |a|)} :: 0 <= k < len ==> a[Back(pos, k, |a|)] == history[|history| - 1 - k]
  }

  /** The samples stand from `pos` on, around the ring, and nothing else changed. */
  ghost predicate Written(a: seq<real>, pos: nat, samples: seq<real>, a': seq<real>)
    requires pos < |a| && |samples| <= |a|
  {
    && |a'| == |a|
    && (forall k {:trigger Ahead(pos, k, |a|)} :: 0 <= k < |samples| ==> a'[Ahead(pos, k, |a|)] == samples[k])
    && forall i {:trigger a'[i]} :: 0 <= i < |a| && Outside(pos, |samples|, |a|, i) ==> a'[i] == a[i]
  }

  predicate Outside(pos: nat, m: nat, n: nat, i: nat)
  {
    if pos + m <= n then i < pos || i >= pos + m else pos + m - n <= i < pos
  }

  /** Writing a block adds it to the history; a block as long as the ring makes up all that it holds. */
  lemma WrittenHolds(a: seq<real>, pos: nat, len: nat, history: seq<real>, samples: seq<real>, a': seq<real>, block: seq<real>)
    requires pos < |a| && |samples| <= |a| && Written(a, pos, samples, a') && Holds(a, pos, len, history)
    requires |samples| <= |block| && block[|block| - |samples|..] == samples
    requires |samples| < |block| ==> |samples| == |a|
    ensures Holds(a', Ahead(pos, |samples|, |a|), Min(len + |samples|, |a|), history + block)
  {
    var n, m := |a|, |samples|;
    var pos', h := Ahead(pos, m, n), history + block;
    forall k {:trigger Back(pos', k, n)} | 0 <= k < Min(len + m, n) ensures a'[Back(pos', k, n)] == h[|h| - 1 - k] {
      if k < m {
        assert Back(pos', k, n) == Ahead(pos, m - 1 - k, n);
        assert samples[m - 1 - k] == block[|block| - 1 - k];
      } else {
        assert Back(pos', k, n) == Back(pos, k - m, n);
        assert Outside(pos, m, n, Back(pos, k - m, n));
      }
    }
  }

  lemma HoldsPosition(a: seq<real>, pos: nat, len: nat, history: seq<real>)
    requires Holds(a, pos, len, history)
    ensures pos < |a| && len <= |a|
  {}

  /** Copies `m` samples into an array. */
  method CopyIn(a: array<real>, at: nat, samples: seq<real>, from: nat, m: nat)
    requires at + m <= a.Length && from + m <= |samples|
    modifies a
    ensures forall i {:trigger a[i]} :: 0 <= i < a.Length ==> a[i] == if at <= i < at + m then samples[from + i - at] else old(a[i])
  {
    for k := 0 to m
      invariant forall i {:trigger a[i]} :: 0 <= i < a.Length ==> a[i] == if at <= i < at + k then samples[from + i - at] else old(a[i])
    {
      a[at + k] := samples[from + k];
    }
  }

  /** Writes `m` samples from `pos` on, in two parts when they do not fit before the end. */
  method WriteAround(a: array<real>, pos: nat, stream: seq<real>, from: nat, m: nat)
    requires pos < a.Length && m <= a.Length && from + m <= |stream|
    modifies a
    ensures Written(old(a[..]), pos, stream[from..from + m], a[..])
  {
    if pos + m > a.Length {
      var n0 := a.Length - pos;
      CopyIn(a, pos, stream, from, n0);
      CopyIn(a, 0, stream, from + n0, m - n0);
    } else {
      CopyIn(a, pos, stream, from, m);
    }
  }

  class AudioAsync {
    var audio: array<real>
    var sampleRate: nat
    const lenMs: nat
    var pos: nat
    var len: nat
    var device: bool
    var running: bool
    /** The samples received while running since the last clear. */
    ghost var history: seq<real>

    ghost predicate Valid()
      reads this, audio
    {
      && (running ==> device) && (!device ==> audio.Length == 0)
      && if audio.Length == 0 then pos == len == 0 && history == [] else Holds(audio[..], pos, len, history)
    }

    constructor (lenMs: nat)
      ensures Valid() && history == [] && !device && !running && this.lenMs == lenMs && fresh(audio)
    {
      this.lenMs := lenMs;
      sampleRate := 0;
      audio := new real[0];
      pos, len, device, running := 0, 0, false, false;
      history := [];
    }

    /** Opens the device, which settles the sample rate and with it the size of the buffer. */
    method Init(granted: bool, obtainedRate: nat) returns (ok: bool)
      requires Valid() && !device
      modifies this`audio, this`sampleRate, this`device
      ensures Valid() && ok == granted == device && history == [] && !running
      ensures ok ==> fresh(audio) && sampleRate == obtainedRate && audio.Length == obtainedRate * lenMs / 1000
    {
      if !granted {
        return false;
      }
      device := true;
      sampleRate := obtainedRate;
      RequestedNatural(obtainedRate, lenMs);
      audio := new real[(obtainedRate * lenMs) / 1000](_ => 0.0);
      ok := true;
    }

    method Resume() returns (ok: bool)
      requires Valid()
      modifies this`running
      ensures Valid() && ok == (device && !old(running)) && running == device
    {
      if !device || running {
        return false;
      }
      running := true;
      ok := true;
    }

    method Pause() returns (ok: bool)
      requires Valid()
      modifies this`running
      ensures Valid() && ok == old(running) && !running
    {
      if !device || !running {
        return false;
      }
      running := false;
      ok := true;
    }

    method Clear() returns (ok: bool)
      requires Valid()
      modifies this`pos, this`len, this`history
      ensures Valid() && ok == running && history == if ok then [] else old(history)
    {
      if !device || !running {
        return false;
      }
      pos, len, history := 0, 0, [];
      ok := true;
    }

    /** Called with each new block of samples. */
    method Callback(stream: seq<real>)
      requires Valid() && (running ==> audio.Length > 0)
      modifies this`pos, this`len, this`history, audio
      ensures Valid() && history == if running then old(history) + stream else old(history)
    {
      if !running {
        return;
      }
      hide Holds, Written, Ahead;
      ghost var a := audio[..];
      HoldsPosition(a, pos, len, history);
      var nSamples, from := |stream|, 0;
      if nSamples > audio.Length {
        nSamples := audio.Length;
        from := |stream| - nSamples;
      }
      WriteAround(audio, pos, stream, from, nSamples);
      assert stream[from..from + nSamples] == stream[from..];
      WrittenHolds(a, pos, len, history, stream[from..], audio[..], stream);
      AroundOnce(pos, nSamples, audio.Length);
      pos := (pos + nSamples) % audio.Length;
      len := Min(len + nSamples, audio.Length);
      history := history + stream;
    }

    /** The latest samples, oldest first: as many as asked for, received, and kept. */
    method Get(ms0: int) returns (ok: bool, result: seq<real>)
      requires Valid()
      ensures ok == running
      ensures ok ==>
        var asked := sampleRate * (if ms0 <= 0 then lenMs else ms0) / 1000;
        && |result| == (if asked <= |history| && asked <= audio.Length then asked
          else if |history| <= audio.Length then |history| else audio.Length)
        && result == history[|history| - |result|..]
    {
      if !device || !running {
        return false, [];
      }
      var ms := if ms0 <= 0 then lenMs else ms0;
      RequestedNatural(sampleRate, ms);
      var nSamples: nat := (sampleRate * ms) / 1000;
      if nSamples > len {
        nSamples := len;
      }
      var s0: int := pos - nSamples;
      if s0 < 0 {
        s0 := s0 + audio.Length;
      }
      if s0 + nSamples > audio.Length {
        result := audio[s0..] + audio[..nSamples - (audio.Length - s0)];
      } else {
        result := audio[s0..s0 + nSamples];
      }
      if audio.Length > 0 {
        ReadBack(audio[..], pos, len, history, nSamples, s0, result);
      }
      ok := true;
    }
  }

  lemma RequestedNatural(a: nat, b: nat)
    ensures a * b >= 0 && a * b / 1000 >= 0
  {}

  lemma AroundOnce(pos: nat, m: nat, n: nat)
    requires pos < n && m <= n
    ensures (pos + m) % n == Ahead(pos, m, n)
  {
    if pos + m >= n {
      assert pos + m == 1 * n + (pos + m - n);
      Remainder(pos + m - n, n);
    } else {
      Remainder(pos + m, n);
    }
  }

  lemma Remainder(r: nat, n: nat)
    requires r < n
    ensures r % n == r && (n + r) % n == r
  {}

  lemma ReadBack(a: seq<real>, pos: nat, len: nat, history: seq<real>, m: nat, s0: nat, result: seq<real>)
    requires Holds(a, pos, len, history) && m <= len && s0 < |a|
    requires s0 == if pos >= m then pos - m else pos - m + |a|
    requires result == if s0 + m > |a| then a[s0..] + a[..m - (|a| - s0)] else a[s0..s0 + m]
    ensures result == history[|history| - m..]
  {
    forall k | 0 <= k < m ensures result[k] == history[|history| - m + k] {
      assert a[Back(pos, m - 1 - k, |a|)] == history[|history| - 1 - (m - 1 - k)];
    }
  }
}
