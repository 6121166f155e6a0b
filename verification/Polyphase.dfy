/** The streaming polyphase rational resampler: up output phases per input sample, one output
    every down phases.

    Specification: after N samples of a channel the outputs so far are Resampled of those
    samples, whatever the chunks were. */
module Polyphase {
  import opened Arithmetic
  import opened Streams
  import opened Fir
  import opened FirKernels

  type Bank = seq<seq<real>>

  ghost predicate IsBank(bank: Bank, up: nat, taps: nat) {
    up >= 1 && taps >= 1 && |bank| == up && forall p :: 0 <= p < up ==> |bank[p]| == taps
  }

  function Silence(n: nat): (s: seq<real>)
    ensures |s| == n && forall i :: 0 <= i < n ==> s[i] == 0.0
  {
    seq(n, _ => 0.0)
  }

  /** Sample p of a channel, silent before its start. */
  function Heard(s: seq<real>, p: int): real {
    SampleAt(0.0, s, p)
  }

  /** The first j terms of the dot product of a bank row with the channel, from start on. */
  function RowSum(row: seq<real>, s: seq<real>, start: int, j: nat): real
    requires j <= |row|
  {
    if j == 0 then 0.0 else RowSum(row, s, start, j - 1) + row[j - 1] * Heard(s, start + j - 1)
  }

  /** Output k: bank row (k down) mod up, against the samples that end at (k down) / up. */
  function Output(bank: Bank, up: nat, down: nat, taps: nat, s: seq<real>, k: nat): real
    requires IsBank(bank, up, taps)
  {
    var row := bank[(k * down) % up];
    RowSum(row, s, (k * down) / up - (taps - 1), taps)
  }

  function Resampled(bank: Bank, up: nat, down: nat, taps: nat, s: seq<real>): (y: seq<real>)
    requires IsBank(bank, up, taps) && down >= 1
    ensures |y| == Multiples(|s| * up, down)
  {
    seq(Multiples(|s| * up, down), k requires 0 <= k < Multiples(|s| * up, down) =>
      Output(bank, up, down, taps, s, k))
  }

  ghost predicate Covers(w: seq<real>, s: seq<real>, start: int) {
    IsPart(0.0, w, s, start)
  }

  // ---------------------------------------------------------------- causality

  lemma {:induction false} RowSumCausal(row: seq<real>, s: seq<real>, t: seq<real>, start: int, j: nat)
    requires j <= |row| && start + j <= |s|
    ensures RowSum(row, s + t, start, j) == RowSum(row, s, start, j)
  {
    if j > 0 {
      RowSumCausal(row, s, t, start, j - 1);
    }
  }

  lemma DivBelow(a: nat, n: nat, up: nat)
    requires up >= 1
    ensures a < n * up <==> a / up < n
  {
    var q, r := a / up, a % up;
    assert a == up * q + r;
    if q < n {
      Monotone(q + 1, n, up);
      assert (q + 1) * up == up * q + up;
    } else {
      Monotone(n, q, up);
    }
  }

  lemma OutputCausal(bank: Bank, up: nat, down: nat, taps: nat, s: seq<real>, x: seq<real>, k: nat)
    requires IsBank(bank, up, taps) && k * down < |s| * up
    ensures Output(bank, up, down, taps, s + x, k) == Output(bank, up, down, taps, s, k)
  {
    DivBelow(k * down, |s|, up);
    RowSumCausal(bank[(k * down) % up], s, x, (k * down) / up - (taps - 1), taps);
  }

  /** Outputs k0, k0+1, ... of the longer stream continue those of the shorter one. */
  lemma ResampledGrows(bank: Bank, up: nat, down: nat, taps: nat, s: seq<real>, x: seq<real>, y: seq<real>)
    requires IsBank(bank, up, taps) && down >= 1
    requires |y| == Multiples((|s| + |x|) * up, down) - Multiples(|s| * up, down)
    requires forall i :: 0 <= i < |y| ==>
      y[i] == Output(bank, up, down, taps, s + x, Multiples(|s| * up, down) + i)
    ensures Resampled(bank, up, down, taps, s + x) == Resampled(bank, up, down, taps, s) + y
  {
    hide Output, Multiples;
    var k0 := Multiples(|s| * up, down);
    var lhs, rhs := Resampled(bank, up, down, taps, s + x), Resampled(bank, up, down, taps, s) + y;
    forall k | 0 <= k < |lhs| ensures lhs[k] == rhs[k] {
      if k < k0 {
        assert k * down < |s| * up;
        OutputCausal(bank, up, down, taps, s, x, k);
      } else {
        assert rhs[k] == y[k - k0];
      }
    }
  }

  // ---------------------------------------------------------------- the kernel

  /** Counts the outputs that start inside the input, stepping the time register. */
  method CountOutputs(n: nat, up: nat, down: nat, timeRegister: nat) returns (count: nat)
    requires up >= 1 && down >= 1
    ensures count == OutputCount(n * up, timeRegister, down)
  {
    count := 0;
    var t := timeRegister;
    var turns := 0;
    while turns < n * up + 1
      invariant 0 <= turns <= n * up + 1 && count == turns && t == timeRegister + count * down
      invariant count > 0 ==> timeRegister + (count - 1) * down < n * up
      decreases n * up + 1 - turns
    {
      DivBelow(t, n, up);
      if t / up >= n {
        break;
      }
      count := count + 1;
      assert count * down == (count - 1) * down + down;
      t := t + down;
      turns := turns + 1;
    }
    Monotone(1, down, count);
    CountIsOutputs(n * up, timeRegister, down, count);
  }

  lemma CountIsOutputs(n: nat, phase: nat, m: nat, count: nat)
    requires m >= 1 && phase + count * m >= n && (count > 0 ==> phase + (count - 1) * m < n)
    ensures count == OutputCount(n, phase, m)
  {
    if phase < n {
      CeilingBounds(n - phase, m);
      var c := OutputCount(n, phase, m);
      assert (count - 1) * m == count * m - m;
      if c < count {
        Monotone(c, count - 1, m);
      } else if count < c {
        assert (c - 1) * m == c * m - m;
        Monotone(count, c - 1, m);
      }
    }
  }

  method ResampleChannel(x: seq<real>, bank: Bank, up: nat, down: nat, taps: nat,
                         history: array<real>, timeRegister: nat, ghost past: seq<real>)
    returns (out: seq<real>, timeOut: int)
    requires IsBank(bank, up, taps) && down >= 1
    requires history.Length == taps - 1 && Covers(history[..], past, |past| - (taps - 1))
    requires timeRegister == PhaseAfter(|past| * up, down)
    modifies history
    ensures Resampled(bank, up, down, taps, past + x) == Resampled(bank, up, down, taps, past) + out
    ensures Covers(history[..], past + x, |past + x| - (taps - 1))
    ensures timeOut == PhaseAfter(|past + x| * up, down)
  {
    hide Output, Multiples, PhaseAfter, OutputCount;
    var n := |x|;
    var nOut := CountOutputs(n, up, down, timeRegister);
    assert (|past| + n) * up == |past| * up + n * up;
    PhaseStep(|past| * up, n * up, down);
    var padded := Pad(x, history, past);
    PhaseIsDistance(|past| * up, down);
    var t;
    out, t := ComputeOutputs(n, bank, up, down, taps, nOut, timeRegister, padded,
                             past + x, |past|, Multiples(|past| * up, down));
    ResampledGrows(bank, up, down, taps, past, x, out);
    UpdateHistory(x, history, 0.0, past);
    timeOut := t - n * up;
    NextTime(n * up, timeRegister, down, nOut);
  }

  /** The output loop; the time register moves by down from one output to the next. */
  method ComputeOutputs(n: nat, bank: Bank, up: nat, down: nat, taps: nat, nOut: nat, timeRegister: nat,
                        padded: seq<real>, ghost s: seq<real>, ghost origin: nat, ghost k0: nat)
    returns (out: seq<real>, t: nat)
    requires IsBank(bank, up, taps) && down >= 1 && nOut == OutputCount(n * up, timeRegister, down)
    requires |padded| == n + taps - 1 && Covers(padded, s, origin - (taps - 1))
    requires k0 * down == origin * up + timeRegister
    ensures t == timeRegister + nOut * down
    ensures |out| == nOut && forall i :: 0 <= i < nOut ==> out[i] == Output(bank, up, down, taps, s, k0 + i)
  {
    hide Output, OutputCount, Covers;
    out := [];
    t := timeRegister;
    for i := 0 to nOut
      invariant |out| == i && t == timeRegister + i * down
      invariant forall j :: 0 <= j < i ==> out[j] == Output(bank, up, down, taps, s, k0 + j)
    {
      OutputInBounds(n * up, timeRegister, down, i);
      DivBelow(t, n, up);
      assert (k0 + i) * down == k0 * down + i * down;
      var acc := OutputSample(bank, up, down, taps, s, k0 + i, padded, origin, t);
      out := out + [acc];
      assert (i + 1) * down == i * down + down;
      t := t + down;
    }
  }

  lemma NextTime(n: nat, phase: nat, m: nat, count: nat)
    requires m >= 1 && count == OutputCount(n, phase, m)
    ensures phase + count * m - n == NextPhase(n, phase, m)
  {
  }

  /** One output: the bank row of the current phase against the padded input. */
  method OutputSample(bank: Bank, up: nat, down: nat, taps: nat, ghost s: seq<real>, ghost k: nat,
                      padded: seq<real>, ghost origin: nat, t: nat) returns (acc: real)
    requires IsBank(bank, up, taps) && k * down == origin * up + t
    requires t / up + taps <= |padded| && Covers(padded, s, origin - (taps - 1))
    ensures acc == Output(bank, up, down, taps, s, k)
  {
    var inpIdx, phase := t / up, t % up;
    RowAndStart(k * down, up, origin, t);
    acc := RowDot(bank[phase], padded, inpIdx, s, origin + inpIdx - (taps - 1));
  }

  /** The inner loop: a bank row against the padded input from base on. */
  method RowDot(row: seq<real>, padded: seq<real>, base: nat, ghost s: seq<real>, ghost start: int)
    returns (acc: real)
    requires base + |row| <= |padded| && Covers(padded, s, start - base)
    ensures acc == RowSum(row, s, start, |row|)
  {
    acc := 0.0;
    for j := 0 to |row|
      invariant acc == RowSum(row, s, start, j)
    {
      assert padded[base + j] == Heard(s, start + j);
      acc := acc + row[j] * padded[base + j];
    }
  }

  lemma RowAndStart(at: nat, up: nat, origin: nat, t: nat)
    requires up >= 1 && at == origin * up + t
    ensures at / up == origin + t / up && at % up == t % up
  {
    var q, r := t / up, t % up;
    assert t == up * q + r;
    Difference(up, origin, -q);
    DivModUnique(at, up, origin + q, r);
  }

  method Pad(x: seq<real>, history: array<real>, ghost past: seq<real>) returns (padded: seq<real>)
    requires Covers(history[..], past, |past| - history.Length)
    ensures |padded| == history.Length + |x| && Covers(padded, past + x, |past| - history.Length)
  {
    padded := history[..] + x;
    forall j | 0 <= j < |padded| ensures padded[j] == Heard(past + x, |past| - history.Length + j) {
      if j < history.Length {
        assert padded[j] == history[..][j];
      }
    }
  }

  // ---------------------------------------------------------------- the resampler object

  /** The bank: row p holds taps p, p + up, p + 2 up, ... of the prototype filter, padded with
      zeros to a multiple of up. */
  method BuildBank(h: seq<real>, up: nat) returns (bank: Bank, taps: nat)
    requires up >= 1 && |h| >= 1
    ensures IsBank(bank, up, taps) && (taps - 1) * up < |h| <= taps * up
    ensures forall p, j :: 0 <= p < up && 0 <= j < taps ==> bank[p][j] == Heard(h, j * up + p)
  {
    taps := (|h| + up - 1) / up;
    CeilingBounds(|h|, up);
    assert taps >= 1;
    assert (taps - 1) * up == taps * up - up;
    bank := seq(up, p requires 0 <= p < up => seq(taps, j requires 0 <= j < taps => Heard(h, j * up + p)));
  }

  /** A resampler fed one channel: nothing yet, or just that stream. */
  ghost predicate HeardSoFar(streams: seq<seq<real>>, s: seq<real>) {
    (streams == [] && s == []) || streams == [s]
  }

  class StreamingPolyphaseResampler {
    const up: nat
    const down: nat
    const bank: Bank
    const tapsPerPhase: nat
    var histories: seq<array<real>>
    var timeRegister: nat

    /** Input samples per channel so far. */
    ghost var total: nat
    /** The streams the channels stand for, all of that length. */
    ghost var heard: seq<seq<real>>

    ghost predicate Valid()
      reads this, histories
    {
      && IsBank(bank, up, tapsPerPhase) && down >= 1
      && timeRegister == PhaseAfter(total * up, down)
      && |heard| == |histories|
      && (forall c :: 0 <= c < |histories| ==>
            && |heard[c]| == total && histories[c].Length == tapsPerPhase - 1
            && Covers(histories[c][..], heard[c], total - (tapsPerPhase - 1)))
      && (forall c, d :: 0 <= c < d < |histories| ==> histories[c] != histories[d])
    }

    constructor (up: nat, down: nat, h: seq<real>)
      requires up >= 1 && down >= 1 && |h| >= 1
      ensures Valid() && this.up == up && this.down == down && total == 0 && heard == []
      ensures histories == [] && IsBank(bank, up, tapsPerPhase)
      ensures forall p, j :: 0 <= p < up && 0 <= j < tapsPerPhase ==> bank[p][j] == Heard(h, j * up + p)
    {
      hide PhaseAfter, IsBank;
      PhaseStart(down);
      this.up := up;
      this.down := down;
      var b, t := BuildBank(h, up);
      bank := b;
      tapsPerPhase := t;
      histories := [];
      timeRegister := 0;
      total := 0;
      heard := [];
    }

    /** What channel c stands for before a call: its stream, or silence if it is new. */
    ghost function Stream(streams: seq<seq<real>>, length: nat, c: nat): seq<real> {
      if c < |streams| then streams[c] else Silence(length)
    }

    /** One more channel, silent so far. */
    method AddChannel()
      requires Valid()
      modifies this`histories, this`heard
      ensures Valid() && |histories| == |old(histories)| + 1
      ensures histories[..|old(histories)|] == old(histories) && fresh(histories[|old(histories)|])
      ensures heard == old(heard) + [Silence(total)]
    {
      var silent := new real[tapsPerPhase - 1](_ => 0.0);
      histories := histories + [silent];
      heard := heard + [Silence(total)];
    }

    /** Gives every channel up to nCh a history; a channel first seen now has been silent. */
    method EnsureChannels(nCh: nat)
      requires Valid()
      modifies this`histories, this`heard
      ensures Valid() && |histories| == if nCh <= |old(histories)| then |old(histories)| else nCh
      ensures histories[..|old(histories)|] == old(histories)
      ensures forall c :: |old(histories)| <= c < |histories| ==> fresh(histories[c])
      ensures forall c :: 0 <= c < |heard| ==> heard[c] == Stream(old(heard), total, c)
    {
      hide IsBank, PhaseAfter;
      ghost var given := |histories|;
      while |histories| < nCh
        invariant Valid() && given <= |histories|
        invariant |histories| == given || |histories| <= nCh
        invariant histories[..given] == old(histories)
        invariant forall c :: given <= c < |histories| ==> fresh(histories[c])
        invariant forall c :: 0 <= c < |heard| ==> heard[c] == Stream(old(heard), total, c)
        decreases nCh - |histories|
      {
        AddChannel();
      }
    }

    /** The per-channel loop: all channels start from the same time register. */
    method ProcessChannels(audio: seq<seq<real>>, ghost before: seq<seq<real>>)
      returns (out: seq<seq<real>>, newTime: int)
      requires Valid() && 1 <= |audio| <= |histories| && before == heard
      requires forall c :: 0 <= c < |audio| ==> |audio[c]| == |audio[0]|
      modifies histories
      ensures |out| == |audio| && newTime == PhaseAfter((total + |audio[0]|) * up, down)
      ensures forall c :: 0 <= c < |audio| ==>
        && Covers(histories[c][..], before[c] + audio[c], total + |audio[0]| - (tapsPerPhase - 1))
        && Resampled(bank, up, down, tapsPerPhase, before[c] + audio[c])
           == Resampled(bank, up, down, tapsPerPhase, before[c]) + out[c]
      ensures forall c :: |audio| <= c < |histories| ==>
        Covers(histories[c][..], before[c], total - (tapsPerPhase - 1))
    {
      hide Resampled, PhaseAfter, Covers;
      out, newTime := [], timeRegister;
      for ch := 0 to |audio|
        invariant |out| == ch
        invariant ch > 0 ==> newTime == PhaseAfter((total + |audio[0]|) * up, down)
        invariant forall c :: 0 <= c < ch ==>
          && Covers(histories[c][..], before[c] + audio[c], total + |audio[0]| - (tapsPerPhase - 1))
          && Resampled(bank, up, down, tapsPerPhase, before[c] + audio[c])
             == Resampled(bank, up, down, tapsPerPhase, before[c]) + out[c]
        invariant forall c :: ch <= c < |histories| ==>
          Covers(histories[c][..], before[c], total - (tapsPerPhase - 1))
      {
        var y;
        y, newTime := ResampleChannel(audio[ch], bank, up, down, tapsPerPhase, histories[ch], timeRegister, before[ch]);
        out := out + [y];
      }
    }

    /** Resamples one chunk of every channel. Per channel, successive outputs put together are
        the resampled stream. A channel that exists but is not in the chunk has in effect been
        delayed by a chunk of silence. */
    method Process(audio: seq<seq<real>>) returns (out: seq<seq<real>>)
      requires Valid() && |audio| >= 1
      requires forall c :: 0 <= c < |audio| ==> |audio[c]| == |audio[0]|
      modifies this, histories
      ensures Valid() && total == old(total) + |audio[0]| && |out| == |audio|
      ensures |heard| == if |audio| <= |old(heard)| then |old(heard)| else |audio|
      ensures |histories| >= |old(histories)| && histories[..|old(histories)|] == old(histories)
      ensures forall c :: |old(histories)| <= c < |histories| ==> fresh(histories[c])
      ensures forall c :: 0 <= c < |heard| ==>
        heard[c] == if c < |audio| then Stream(old(heard), old(total), c) + audio[c]
                    else Silence(|audio[0]|) + old(heard)[c]
      ensures forall c :: 0 <= c < |audio| ==>
        Resampled(bank, up, down, tapsPerPhase, heard[c])
           == Resampled(bank, up, down, tapsPerPhase, Stream(old(heard), old(total), c)) + out[c]
    {
      hide Resampled, PhaseAfter, Covers, IsBank;
      EnsureChannels(|audio|);
      ghost var before := heard;
      var newTime;
      out, newTime := ProcessChannels(audio, before);
      Advance(audio, newTime);
    }

    /** A chunk of the only channel there is. */
    method ProcessMono(x: seq<real>, ghost s: seq<real>) returns (y: seq<real>)
      requires Valid() && HeardSoFar(heard, s) && total == |s|
      modifies this, histories
      ensures Valid() && HeardSoFar(heard, s + x) && total == |s + x|
      ensures |histories| >= |old(histories)| && histories[..|old(histories)|] == old(histories)
      ensures forall c :: |old(histories)| <= c < |histories| ==> fresh(histories[c])
      ensures Resampled(bank, up, down, tapsPerPhase, s + x) == Resampled(bank, up, down, tapsPerPhase, s) + y
    {
      hide Resampled, IsBank, Covers, PhaseAfter;
      assert Stream(heard, total, 0) == s;
      var out := Process([x]);
      y := out[0];
    }

    /** Takes note of a processed chunk. */
    method Advance(audio: seq<seq<real>>, newTime: nat)
      requires 1 <= |audio| <= |histories| == |heard| && IsBank(bank, up, tapsPerPhase) && down >= 1
      requires forall c :: 0 <= c < |audio| ==> |audio[c]| == |audio[0]|
      requires newTime == PhaseAfter((total + |audio[0]|) * up, down)
      requires forall c :: 0 <= c < |histories| ==> |heard[c]| == total && histories[c].Length == tapsPerPhase - 1
      requires forall c, d :: 0 <= c < d < |histories| ==> histories[c] != histories[d]
      requires forall c :: 0 <= c < |histories| ==>
        if c < |audio| then Covers(histories[c][..], heard[c] + audio[c], total + |audio[0]| - (tapsPerPhase - 1))
        else Covers(histories[c][..], heard[c], total - (tapsPerPhase - 1))
      modifies this`timeRegister, this`total, this`heard
      ensures Valid() && total == old(total) + |audio[0]| && |heard| == |old(heard)|
      ensures forall c :: 0 <= c < |heard| ==>
        heard[c] == if c < |audio| then old(heard)[c] + audio[c] else Silence(|audio[0]|) + old(heard)[c]
    {
      hide PhaseAfter, Covers, IsBank;
      ghost var n, before := |audio[0]|, heard;
      forall c | |audio| <= c < |histories|
        ensures Covers(histories[c][..], Silence(n) + before[c], total + n - (tapsPerPhase - 1))
      {
        DelayCovers(histories[c][..], before[c], n, total - (tapsPerPhase - 1));
      }
      timeRegister := newTime;
      heard := seq(|before|, c requires 0 <= c < |before| =>
        if c < |audio| then before[c] + audio[c] else Silence(n) + before[c]);
      total := total + n;
    }
  }

  /** Putting silence in front of a stream moves its windows back. */
  lemma DelayCovers(w: seq<real>, s: seq<real>, n: nat, start: int)
    requires Covers(w, s, start)
    ensures Covers(w, Silence(n) + s, start + n)
  {
    forall j | 0 <= j < |w| ensures w[j] == Heard(Silence(n) + s, start + n + j) {
      assert w[j] == Heard(s, start + j);
    }
  }

  /** Any chunking of one channel: the outputs put together are the closed form of the whole. */
  method RunMono(up: nat, down: nat, h: seq<real>, chunks: seq<seq<real>>)
    returns (outs: seq<seq<real>>, bank: Bank, taps: nat)
    requires up >= 1 && down >= 1 && |h| >= 1
    ensures IsBank(bank, up, taps)
    ensures forall p, j :: 0 <= p < up && 0 <= j < taps ==> bank[p][j] == Heard(h, j * up + p)
    ensures Flatten(outs) == Resampled(bank, up, down, taps, Flatten(chunks))
  {
    hide Resampled, IsBank, HeardSoFar, StreamingPolyphaseResampler.Valid;
    var r := new StreamingPolyphaseResampler(up, down, h);
    bank, taps := r.bank, r.tapsPerPhase;
    outs := [];
    NothingResampled(bank, up, down, taps);
    assert HeardSoFar([], []) by { NothingHeard(); }
    for i := 0 to |chunks|
      invariant r.Valid() && fresh(r) && (forall k :: 0 <= k < |r.histories| ==> fresh(r.histories[k]))
      invariant r.bank == bank && r.up == up && r.down == down && r.tapsPerPhase == taps
      invariant |outs| == i && HeardSoFar(r.heard, Flatten(chunks[..i])) && r.total == |Flatten(chunks[..i])|
      invariant Flatten(outs) == Resampled(bank, up, down, taps, Flatten(chunks[..i]))
    {
      var y := r.ProcessMono(chunks[i], Flatten(chunks[..i]));
      assert chunks[..i + 1][..i] == chunks[..i];
      assert (outs + [y])[..i] == outs;
      outs := outs + [y];
    }
    assert chunks[..|chunks|] == chunks;
  }

  lemma NothingHeard()
    ensures HeardSoFar([], [])
  {
  }

  lemma NothingResampled(bank: Bank, up: nat, down: nat, taps: nat)
    requires IsBank(bank, up, taps) && down >= 1
    ensures Resampled(bank, up, down, taps, []) == []
  {
    assert !(0 < Multiples(0, down));
  }

  // ---------------------------------------------------------------- range of the time register

  /** Below up, one more input sample moves the register up by down - up. */
  lemma RegisterClimbs(up: nat, down: nat, n: nat)
    requires 1 <= up < down && PhaseAfter(n * up, down) < up
    ensures PhaseAfter((n + 1) * up, down) == PhaseAfter(n * up, down) + down - up
  {
    hide PhaseAfter, Multiples;
    assert (n + 1) * up == n * up + up;
    PhaseStep(n * up, up, down);
    CountIsOutputs(up, PhaseAfter(n * up, down), down, 1);
  }

  lemma {:induction false} RegisterReaches(up: nat, down: nat, n: nat)
    requires 1 <= up < down && forall k: nat :: PhaseAfter(k * up, down) < up
    ensures PhaseAfter(n * up, down) >= n
  {
    hide PhaseAfter;
    if n > 0 {
      RegisterReaches(up, down, n - 1);
      assert PhaseAfter((n - 1) * up, down) < up;
      RegisterClimbs(up, down, n - 1);
    }
  }

  /** The time register, always below down, stays below up, as the kernel's description has it,
      exactly when the ratio does not reduce the rate. */
  lemma RegisterBelowUpExactly(up: nat, down: nat)
    requires up >= 1 && down >= 1
    ensures (forall n: nat :: PhaseAfter(n * up, down) < up) <==> down <= up
  {
    hide PhaseAfter;
    if (forall n: nat :: PhaseAfter(n * up, down) < up) && up < down {
      RegisterReaches(up, down, up);
    }
    if down <= up {
      forall n: nat ensures PhaseAfter(n * up, down) < up {
        BelowDown(n * up, down);
      }
    }
  }

  lemma BelowDown(n: nat, down: nat)
    requires down >= 1
    ensures PhaseAfter(n, down) < down
  {
  }
}
