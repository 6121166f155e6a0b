/** The two streaming FIR kernels and the objects around them: the fused decimating filter
    (direct form I over a scratch buffer) and the transposed direct form II filter whose
    output is then sliced. Each is proved, call by call, to extend one and the same stream. */
module FirKernels {
  import opened Arithmetic
  import opened Streams
  import opened Fir

  /** w is the part of the stream that starts at the given time. */
  ghost predicate Window(w: seq<Sample>, s: seq<Sample>, start: int) {
    IsPart(SILENCE, w, s, start)
  }

  /** The history buffer holds the last |h| samples of the stream, silence before its start. */
  ghost predicate Remembers(h: seq<Sample>, s: seq<Sample>) {
    Window(h, s, |s| - |h|)
  }

  ghost predicate Reverses(flipped: seq<real>, taps: seq<real>) {
    |flipped| == |taps| && forall i :: 0 <= i < |taps| ==> flipped[i] == taps[|taps| - 1 - i]
  }

  /** The number of outputs one call produces. */
  function OutputCount(n: nat, phase: nat, m: nat): nat
    requires m >= 1
  {
    if phase >= n then 0 else (n - phase + m - 1) / m
  }

  function NextPhase(n: nat, phase: nat, m: nat): int
    requires m >= 1
  {
    if phase >= n then phase - n else phase + OutputCount(n, phase, m) * m - n
  }

  /** The dot product at one output position, over scratch = history followed by input. */
  method DotProduct(scratch: array<Sample>, flipped: array<real>, base: nat,
                    ghost taps: seq<real>, ghost s: seq<Sample>, ghost at: int)
    returns (acc: Sample)
    requires Reverses(flipped[..], taps) && base + flipped.Length <= scratch.Length
    requires Window(scratch[base..base + flipped.Length], s, at - (flipped.Length - 1))
    ensures acc == Convolve(taps, s, at)
  {
    hide Add, Scale, At, IsPart;
    acc := SILENCE;
    var k := flipped.Length;
    for j := 0 to k
      invariant acc == Tail(taps, s, at - (k - j), k - j)
    {
      assert flipped[..][j] == taps[k - 1 - j];
      assert scratch[base..base + k][j] == scratch[base + j];
      WindowAt(scratch[base..base + k], s, at - (k - 1), j);
      AddCommutes(acc, Scale(flipped[j], scratch[base + j]));
      acc := Add(acc, Scale(flipped[j], scratch[base + j]));
    }
  }

  lemma WindowAt(w: seq<Sample>, s: seq<Sample>, start: int, j: nat)
    requires Window(w, s, start) && j < |w|
    ensures w[j] == At(s, start + j)
  {
  }

  lemma AddCommutes(a: Sample, b: Sample)
    ensures Add(a, b) == Add(b, a)
  {
  }

  method FirDecimInto(x: seq<Sample>, flipped: array<real>, m: nat, history: array<Sample>,
                      phaseIn: nat, scratch: array<Sample>, yOut: array<Sample>,
                      ghost taps: seq<real>, ghost past: seq<Sample>)
    returns (nOut: nat, phaseOut: int)
    requires m >= 1 && |taps| >= 1 && Reverses(flipped[..], taps)
    requires history.Length == |taps| - 1 && Remembers(history[..], past)
    requires scratch.Length >= |x| + |taps| - 1 && yOut.Length >= OutputCount(|x|, phaseIn, m)
    requires history != scratch && history != yOut && scratch != yOut
    modifies history, scratch, yOut
    ensures nOut == OutputCount(|x|, phaseIn, m) && phaseOut == NextPhase(|x|, phaseIn, m)
    ensures forall i :: 0 <= i < nOut ==> yOut[i] == Convolve(taps, past + x, |past| + phaseIn + i * m)
    ensures Remembers(history[..], past + x)
  {
    var n, k := |x|, flipped.Length;
    var h := k - 1;
    ghost var s := past + x;
    nOut := if phaseIn >= n then 0 else (n - phaseIn + m - 1) / m;
    if nOut > 0 {
      FillScratch(x, history, scratch, past);
      ComputeOutputs(n, flipped, m, phaseIn, nOut, scratch, yOut, taps, s, |past|);
    }
    UpdateHistory(x, history, SILENCE, past);
    if phaseIn >= n {
      phaseOut := phaseIn - n;
    } else {
      phaseOut := phaseIn + nOut * m - n;
    }
  }

  /** The output loop: one dot product for every m-th position of the input. */
  method ComputeOutputs(n: nat, flipped: array<real>, m: nat, phaseIn: nat, nOut: nat,
                        scratch: array<Sample>, yOut: array<Sample>,
                        ghost taps: seq<real>, ghost s: seq<Sample>, ghost origin: nat)
    requires m >= 1 && |taps| >= 1 && Reverses(flipped[..], taps) && scratch != yOut
    requires scratch.Length >= n + |taps| - 1 && yOut.Length >= nOut
    requires nOut == OutputCount(n, phaseIn, m)
    requires Window(scratch[..n + |taps| - 1], s, origin - (|taps| - 1))
    modifies yOut
    ensures forall i :: 0 <= i < nOut ==> yOut[i] == Convolve(taps, s, origin + phaseIn + i * m)
  {
    hide OutputCount, Convolve;
    var k := flipped.Length;
    ghost var window := scratch[..n + k - 1];
    for i := 0 to nOut
      invariant scratch[..n + k - 1] == window
      invariant forall j :: 0 <= j < i ==> yOut[j] == Convolve(taps, s, origin + phaseIn + j * m)
    {
      OutputInBounds(n, phaseIn, m, i);
      var base := phaseIn + i * m;
      assert scratch[base..base + k] == window[base..base + k];
      var acc := DotProduct(scratch, flipped, base, taps, s, origin + base);
      yOut[i] := acc;
    }
  }

  method FillScratch(x: seq<Sample>, history: array<Sample>, scratch: array<Sample>, ghost past: seq<Sample>)
    requires Remembers(history[..], past) && history != scratch
    requires scratch.Length >= history.Length + |x|
    modifies scratch
    ensures Window(scratch[..history.Length + |x|], past + x, |past| - history.Length)
  {
    var n, h := |x|, history.Length;
    for i := 0 to h
      invariant forall j :: 0 <= j < i ==> scratch[j] == history[..][j]
    {
      scratch[i] := history[i];
    }
    for i := 0 to n
      invariant forall j :: 0 <= j < h ==> scratch[j] == history[..][j]
      invariant forall j :: 0 <= j < i ==> scratch[h + j] == x[j]
    {
      scratch[h + i] := x[i];
    }
    forall j | 0 <= j < h + n ensures scratch[j] == At(past + x, |past| - h + j) {
      if j >= h {
        assert scratch[h + (j - h)] == x[j - h];
      }
    }
  }

  lemma OutputInBounds(n: nat, phase: nat, m: nat, i: nat)
    requires m >= 1 && i < OutputCount(n, phase, m)
    ensures phase + i * m < n
  {
    CeilingSplits(n - phase, m, OutputCount(n, phase, m));
  }

  // ---------------------------------------------------------------- the fused decimating filter

  /** The carried phase is the distance to the next output, before and after a call, and the
      call produces exactly the outputs that fall into the new input. */
  lemma PhaseStep(heard: nat, n: nat, m: nat)
    requires m >= 1
    ensures OutputCount(n, PhaseAfter(heard, m), m) == Multiples(heard + n, m) - Multiples(heard, m)
    ensures NextPhase(n, PhaseAfter(heard, m), m) == PhaseAfter(heard + n, m)
  {
    hide Multiples, PhaseAfter;
    var phase, c := PhaseAfter(heard, m), Multiples(heard, m);
    PhaseIsDistance(heard, m);
    PhaseIsDistance(heard + n, m);
    if phase >= n {
      CountIs(heard + n, m, c);
    } else {
      var more := OutputCount(n, phase, m);
      CeilingBounds(n - phase, m);
      assert (c + more) * m == c * m + more * m;
      CountIs(heard + n, m, c + more);
    }
  }

  lemma CeilingBounds(a: nat, m: nat)
    requires m >= 1
    ensures a <= ((a + m - 1) / m) * m < a + m
  {
    var q, r := (a + m - 1) / m, (a + m - 1) % m;
    assert a + m - 1 == q * m + r;
  }

  lemma OutputsFit(n: nat, phase: nat, m: nat, size: nat)
    requires m >= 1 && n <= size
    ensures OutputCount(n, phase, m) <= size / m + 2
  {
    if phase < n {
      CeilingBounds(n - phase, m);
      var c, q := OutputCount(n, phase, m), size / m;
      assert size < q * m + m;
      assert c * m < (q + 2) * m;
      Smaller(c, q + 2, m);
    }
  }

  lemma Smaller(a: nat, b: nat, m: nat)
    requires a * m < b * m
    ensures a < b
  {
    if b <= a {
      Monotone(b, a, m);
    }
  }

  class StreamingDecimFilter {
    const decimation: nat
    const flipped: array<real>
    const history: array<Sample>
    var phase: nat
    var scratchSize: nat
    var padded: array<Sample>
    var yOut: array<Sample>

    ghost const taps: seq<real>
    /** Everything fed to the filter since it was created or reset. */
    ghost var heard: seq<Sample>

    ghost predicate Valid()
      reads this, flipped, history, padded, yOut
    {
      && decimation >= 1 && |taps| >= 1 && Reverses(flipped[..], taps)
      && history.Length == |taps| - 1 && Remembers(history[..], heard)
      && phase == PhaseAfter(|heard|, decimation)
      && padded.Length == scratchSize + |taps| - 1
      && yOut.Length == scratchSize / decimation + 2
      && history != padded && history != yOut && padded != yOut
    }

    constructor (taps: seq<real>, decimation: nat, expectedInputSize: nat)
      requires |taps| >= 1 && decimation >= 1
      ensures Valid() && this.taps == taps && this.decimation == decimation && heard == []
      ensures fresh(history) && fresh(padded) && fresh(yOut)
    {
      var k := |taps|;
      this.taps := taps;
      this.decimation := decimation;
      flipped := new real[k](i requires 0 <= i < k => taps[k - 1 - i]);
      history := new Sample[k - 1](_ => SILENCE);
      phase := 0;
      scratchSize := expectedInputSize;
      padded := new Sample[expectedInputSize + k - 1];
      yOut := new Sample[expectedInputSize / decimation + 2];
      heard := [];
      new;
      hide PhaseAfter, At;
      PhaseStart(decimation);
      SilentHistory(history[..]);
    }

    method Grow(n: nat)
      requires Valid()
      modifies this`scratchSize, this`padded, this`yOut
      ensures Valid() && scratchSize == n && fresh(padded) && fresh(yOut)
    {
      scratchSize := n;
      padded := new Sample[n + history.Length];
      yOut := new Sample[n / decimation + 2];
    }

    /** Filters and decimates x. The outputs of successive calls, put together, are the
        convolution of the whole stream at 0, m, 2m, ... */
    method Process(x: seq<Sample>) returns (y: seq<Sample>)
      requires Valid()
      modifies this, history, padded, yOut
      ensures Valid() && heard == old(heard) + x
      ensures padded == old(padded) || fresh(padded)
      ensures yOut == old(yOut) || fresh(yOut)
      ensures Decimated(taps, decimation, heard) == Decimated(taps, decimation, old(heard)) + y
    {
      hide OutputCount, NextPhase, Convolve, Reverses;
      if |x| > scratchSize {
        Grow(|x|);
      }
      OutputsFit(|x|, phase, decimation, scratchSize);
      PhaseStep(|heard|, |x|, decimation);
      var nOut, next := FirDecimInto(x, flipped, decimation, history, phase, padded, yOut, taps, heard);
      y := yOut[..nOut];
      DecimatedGrows(taps, decimation, heard, x, y);
      phase := next;
      heard := heard + x;
    }

    method Reset()
      requires Valid()
      modifies this`phase, this`heard, history
      ensures Valid() && heard == []
    {
      hide PhaseAfter, Reverses;
      ClearHistory();
      SilentHistory(history[..]);
      PhaseStart(decimation);
      phase := 0;
      heard := [];
    }

    method ClearHistory()
      modifies history
      ensures forall j :: 0 <= j < history.Length ==> history[j] == SILENCE
    {
      for i := 0 to history.Length
        invariant forall j :: 0 <= j < i ==> history[j] == SILENCE
      {
        history[i] := SILENCE;
      }
    }
  }

  lemma PhaseStart(m: nat)
    requires m >= 1
    ensures PhaseAfter(0, m) == 0
  {
  }

  lemma SilentHistory(h: seq<Sample>)
    requires forall j :: 0 <= j < |h| ==> h[j] == SILENCE
    ensures Remembers(h, [])
  {
  }

  // ---------------------------------------------------------------- filter, then slice

  /** State of the transposed form after the stream s: the partial sums still to be output. */
  ghost predicate Delays(zi: seq<Sample>, b: seq<real>, s: seq<Sample>) {
    |zi| == |b| - 1 && forall k :: 0 <= k < |zi| ==> zi[k] == Tail(b, s, |s| - 1, k + 1)
  }

  /** Transposed direct form II; zi is updated in place. At least two taps, since the kernel
      reads zi[0] unconditionally. */
  method LfilterFir(b: seq<real>, x: seq<Sample>, zi: array<Sample>, ghost past: seq<Sample>)
    returns (y: array<Sample>)
    requires |b| >= 2 && Delays(zi[..], b, past)
    modifies zi
    ensures fresh(y) && y.Length == |x|
    ensures forall i :: 0 <= i < |x| ==> y[i] == Convolve(b, past + x, |past| + i)
    ensures Delays(zi[..], b, past + x)
  {
    hide Convolve;
    y := new Sample[|x|];
    assert past + x[..0] == past;
    for n := 0 to |x|
      invariant forall i :: 0 <= i < n ==> y[i] == Convolve(b, past + x, |past| + i)
      invariant Delays(zi[..], b, past + x[..n])
    {
      NextOutput(b, past, x, n, zi[..]);
      y[n] := Add(Scale(b[0], x[n]), zi[0]);
      ShiftDelays(b, zi, x[n], past + x[..n]);
      assert past + x[..n] + [x[n]] == past + x[..n + 1];
    }
    assert x[..|x|] == x;
  }

  lemma NextOutput(b: seq<real>, past: seq<Sample>, x: seq<Sample>, n: nat, zi: seq<Sample>)
    requires |b| >= 2 && n < |x| && Delays(zi, b, past + x[..n])
    ensures Add(Scale(b[0], x[n]), zi[0]) == Convolve(b, past + x, |past| + n)
  {
    var s, t := past + x[..n], x[n..];
    assert s + t == past + x;
    TailCausal(b, s, t, |s| - 1, 1);
    assert At(past + x, |past| + n) == x[n];
  }

  /** The inner loop: every partial sum takes in the new sample and moves one place down. */
  method ShiftDelays(b: seq<real>, zi: array<Sample>, v: Sample, ghost s: seq<Sample>)
    requires |b| >= 2 && Delays(zi[..], b, s)
    modifies zi
    ensures Delays(zi[..], b, s + [v])
  {
    var nz := zi.Length;
    ghost var s' := s + [v];
    for k := 0 to nz - 1
      invariant forall j :: 0 <= j < k ==> zi[j] == Tail(b, s', |s|, j + 1)
      invariant forall j :: k <= j < nz ==> zi[j] == Tail(b, s, |s| - 1, j + 1)
    {
      TailCausal(b, s, [v], |s| - 1, k + 2);
      zi[k] := Add(Scale(b[k + 1], v), zi[k + 1]);
    }
    zi[nz - 1] := Scale(b[nz], v);
    LastTap(b, s', |s|);
  }

  lemma LastTap(b: seq<real>, s: seq<Sample>, p: nat)
    requires |b| >= 2 && p < |s|
    ensures Tail(b, s, p, |b| - 1) == Scale(b[|b| - 1], s[p])
  {
    assert Tail(b, s, p - 1, |b|) == SILENCE;
  }

  /** s[phase::m] */
  function Slice(s: seq<Sample>, phase: nat, m: nat): seq<Sample>
    requires m >= 1
  {
    seq(OutputCount(|s|, phase, m), i requires 0 <= i < OutputCount(|s|, phase, m) =>
      OutputInBounds(|s|, phase, m, i); s[phase + i * m])
  }

  /** The front end of the narrow-band decoders, up to the discriminator. */
  class FMChannelizer {
    const decimation: nat
    const taps: seq<real>
    const zi: array<Sample>
    var decimPhase: nat

    ghost var heard: seq<Sample>

    ghost predicate Valid()
      reads this, zi
    {
      && decimation >= 1 && |taps| >= 2 && Delays(zi[..], taps, heard)
      && decimPhase == PhaseAfter(|heard|, decimation)
    }

    constructor (taps: seq<real>, decimation: nat)
      requires |taps| >= 2 && decimation >= 1
      ensures Valid() && this.taps == taps && this.decimation == decimation && heard == []
      ensures fresh(zi)
    {
      this.taps := taps;
      this.decimation := decimation;
      zi := new Sample[|taps| - 1](_ => SILENCE);
      decimPhase := 0;
      heard := [];
      new;
      SilentDelays(taps, zi[..]);
    }

    method Process(iq: seq<Sample>) returns (decimated: seq<Sample>)
      requires Valid()
      modifies this`decimPhase, this`heard, zi
      ensures Valid() && heard == old(heard) + iq
      ensures Decimated(taps, decimation, heard) == Decimated(taps, decimation, old(heard)) + decimated
    {
      hide OutputCount, NextPhase, Convolve, Delays;
      var filtered := LfilterFir(taps, iq, zi, heard);
      decimated := Slice(filtered[..], decimPhase, decimation);
      PhaseStep(|heard|, |iq|, decimation);
      forall i | 0 <= i < |decimated|
        ensures decimated[i] == Convolve(taps, heard + iq, |heard| + decimPhase + i * decimation)
      {
        OutputInBounds(|iq|, decimPhase, decimation, i);
      }
      DecimatedGrows(taps, decimation, heard, iq, decimated);
      var nUsed := |filtered[..]| - decimPhase;
      SkipIsNextPhase(|iq|, decimPhase, decimation);
      decimPhase := (decimation - nUsed % decimation) % decimation;
      heard := heard + iq;
    }
  }

  lemma {:induction false} SilentTail(b: seq<real>, p: int, k: nat)
    requires k <= |b|
    ensures Tail(b, [], p, k) == SILENCE
    decreases |b| - k
  {
    if k < |b| {
      SilentTail(b, p - 1, k + 1);
    }
  }

  lemma SilentDelays(b: seq<real>, zi: seq<Sample>)
    requires |zi| == |b| - 1 && forall k :: 0 <= k < |zi| ==> zi[k] == SILENCE
    ensures Delays(zi, b, [])
  {
    forall k | 0 <= k < |zi| ensures zi[k] == Tail(b, [], -1, k + 1) {
      SilentTail(b, -1, k + 1);
    }
  }

  /** The skip computed with the remainder of a possibly negative count is the phase the fused
      kernel computes by subtraction. */
  lemma SkipIsNextPhase(n: nat, phase: nat, m: nat)
    requires m >= 1 && phase < m
    ensures (m - (n - phase) % m) % m == NextPhase(n, phase, m)
  {
    var u := n - phase;
    if u == 0 {
      DivModUnique(m, m, 1, 0);
      DivModUnique(u, m, 0, 0);
    } else if u < 0 {
      DivModUnique(u, m, -1, u + m);
      DivModUnique(-u, m, 0, -u);
    } else {
      var c := OutputCount(n, phase, m);
      CeilingBounds(u, m);
      var r := c * m - u;
      if r == 0 {
        DivModUnique(u, m, c, 0);
        DivModUnique(m, m, 1, 0);
      } else {
        assert (c - 1) * m == c * m - m;
        DivModUnique(u, m, c - 1, m - r);
        DivModUnique(r, m, 0, r);
      }
    }
  }

  // ---------------------------------------------------------------- whole runs

  /** Runs a new fused filter over a stream cut into chunks in any way, empty ones included. */
  method RunFused(taps: seq<real>, m: nat, chunks: seq<seq<Sample>>, expected: nat)
    returns (outs: seq<seq<Sample>>)
    requires |taps| >= 1 && m >= 1
    ensures |outs| == |chunks|
    ensures Flatten(outs) == Decimated(taps, m, Flatten(chunks))
  {
    hide Decimated;
    var f := new StreamingDecimFilter(taps, m, expected);
    outs := [];
    NothingDecimated(taps, m);
    for i := 0 to |chunks|
      invariant f.Valid() && f.taps == taps && f.decimation == m && fresh(f) && fresh(f.history)
      invariant fresh(f.padded) && fresh(f.yOut)
      invariant |outs| == i && f.heard == Flatten(chunks[..i])
      invariant Flatten(outs) == Decimated(taps, m, f.heard)
    {
      var y := f.Process(chunks[i]);
      assert chunks[..i + 1][..i] == chunks[..i];
      assert (outs + [y])[..i] == outs;
      outs := outs + [y];
    }
    assert chunks[..|chunks|] == chunks;
  }

  /** The same for a new channelizer. */
  method RunChannelizer(taps: seq<real>, m: nat, chunks: seq<seq<Sample>>)
    returns (outs: seq<seq<Sample>>)
    requires |taps| >= 2 && m >= 1
    ensures |outs| == |chunks|
    ensures Flatten(outs) == Decimated(taps, m, Flatten(chunks))
  {
    hide Decimated;
    var f := new FMChannelizer(taps, m);
    outs := [];
    NothingDecimated(taps, m);
    for i := 0 to |chunks|
      invariant f.Valid() && f.taps == taps && f.decimation == m && fresh(f) && fresh(f.zi)
      invariant |outs| == i && f.heard == Flatten(chunks[..i])
      invariant Flatten(outs) == Decimated(taps, m, f.heard)
    {
      var y := f.Process(chunks[i]);
      assert chunks[..i + 1][..i] == chunks[..i];
      assert (outs + [y])[..i] == outs;
      outs := outs + [y];
    }
    assert chunks[..|chunks|] == chunks;
  }

  lemma NothingDecimated(taps: seq<real>, m: nat)
    requires m >= 1
    ensures Decimated(taps, m, []) == []
  {
    assert !(0 < Multiples(0, m));
  }

  /** Filtering and slicing one stream, and fused decimation of the same stream cut elsewhere,
      put out the same samples. */
  method FusedEqualsSimple(taps: seq<real>, m: nat, chunks: seq<seq<Sample>>, others: seq<seq<Sample>>)
    returns (fused: seq<seq<Sample>>, simple: seq<seq<Sample>>)
    requires |taps| >= 2 && m >= 1 && Flatten(chunks) == Flatten(others)
    ensures Flatten(fused) == Flatten(simple) == Decimated(taps, m, Flatten(chunks))
  {
    fused := RunFused(taps, m, chunks, 20000);
    simple := RunChannelizer(taps, m, others);
  }
}
