/** A transmission as the receiver samples it, of any amplitude and with bounded noise, and what the
    detector makes of it. Time is counted in fifths of a sample: a bit lasts twelve, and is sent as a
    pulse in its first half for a one, in its second half for a zero. The preamble is four pulses
    before the data. */
module AdsbWave {
  import opened Words
  import opened Crc24
  import opened AdsbSlicer
  import opened AdsbDetect
  import opened AdsbPreamble

  // ---------------------------------------------------------------- the waveform

  /** Whether the carrier is on, t fifths after the beginning of the data. */
  predicate Carrier(bits: Bits, t: int) {
    if t < 0 then Pulse(t)
    else t / 12 < |bits| && (t % 12 < 6) == bits[t / 12]
  }

  /** The magnitude over the sample that begins t fifths after the data. */
  function Magnitude(bits: Bits, t: int, amp: nat): int {
    Lit(Carrier(bits, t), amp) + Lit(Carrier(bits, t + 1), amp) + Lit(Carrier(bits, t + 2), amp)
    + Lit(Carrier(bits, t + 3), amp) + Lit(Carrier(bits, t + 4), amp)
  }

  /** The magnitudes hold a transmission whose data begin phase fifths of a sample after sample j + 19:
      of that amplitude, up to noise, over its duration and three samples more. */
  ghost predicate Holds(mag: seq<int>, msg: seq<Byte>, j: nat, phase: nat, amp: nat, noise: nat) {
    && j + 290 < |mag| && 4 <= phase <= 8
    && forall i :: j <= i < |mag| && 5 * i < 5 * (j + 22) + phase + 96 * |msg| ==>
      HoldsSample(mag[i], msg, 5 * i - (5 * (j + 19) + phase), amp, noise)
  }

  /** A sample that begins t fifths after the data is what the transmission makes it, up to noise. */
  predicate HoldsSample(x: int, msg: seq<Byte>, t: int, amp: nat, noise: nat) {
    Near(x, Magnitude(MessageBits(msg), t, amp), noise)
  }

  // ---------------------------------------------------------------- slicing the waveform

  /** The carrier around a bit: a before it, b in its first half, c and d in the halves of the next. */
  predicate Around(a: bool, b: bool, c: bool, d: bool, r: int) {
    if r < 0 then a else if r < 6 then b else if r < 12 then !b else if r < 18 then c else d
  }

  function SampleAround(a: bool, b: bool, c: bool, d: bool, r: int, amp: nat): int {
    Lit(Around(a, b, c, d, r), amp) + Lit(Around(a, b, c, d, r + 1), amp) + Lit(Around(a, b, c, d, r + 2), amp)
    + Lit(Around(a, b, c, d, r + 3), amp) + Lit(Around(a, b, c, d, r + 4), amp)
  }

  /** How much noise a slicer bears: less than a fifth of the peak when it is aligned, and less the more
      it is off. */
  predicate Bearable(off: int, amp: nat, noise: nat) {
    || (off == 0 && noise < amp)
    || ((off == 1 || off == -1) && 4 * noise < 3 * amp)
    || ((off == 2 || off == -2) && 5 * noise < 2 * amp)
  }

  /** A slicer at most two fifths off sees the bit, whatever its neighbours are, through bearable noise. */
  lemma SlicerReads(a: bool, b: bool, c: bool, d: bool, off: int, sp: nat, m: seq<int>, amp: nat, noise: nat)
    requires Bearable(off, amp, noise) && sp < 5 && !(c && d) && |m| == 4
    requires forall i :: 0 <= i < 4 ==> Near(m[i], SampleAround(a, b, c, d, off - sp + 5 * i, amp), noise)
    ensures Slice(m, 0, sp) > 0 <==> b
  {
    hide Around, SampleAround, Near, Bearable;
    assert Near(m[0], SampleAround(a, b, c, d, off - sp, amp), noise);
    assert Near(m[1], SampleAround(a, b, c, d, off - sp + 5, amp), noise);
    assert Near(m[2], SampleAround(a, b, c, d, off - sp + 10, amp), noise);
    assert Near(m[3], SampleAround(a, b, c, d, off - sp + 15, amp), noise);
    match sp
    case 0 => Sign0(a, b, c, d, off, m[0], m[1], m[2], amp, noise);
    case 1 => Sign1(a, b, c, d, off, m[0], m[1], m[2], amp, noise);
    case 2 => Sign2(a, b, c, d, off, m[0], m[1], m[2], amp, noise);
    case 3 => Sign3(a, b, c, d, off, m[0], m[1], m[2], amp, noise);
    case _ => Sign4(a, b, c, d, off, m[0], m[1], m[2], m[3], amp, noise);
  }

  lemma Sign0(a: bool, b: bool, c: bool, d: bool, off: int, m0: int, m1: int, m2: int, amp: nat, noise: nat)
    requires Bearable(off, amp, noise) && !(c && d)
    requires Near(m0, SampleAround(a, b, c, d, off, amp), noise)
    requires Near(m1, SampleAround(a, b, c, d, off + 5, amp), noise)
    requires Near(m2, SampleAround(a, b, c, d, off + 10, amp), noise)
    ensures 5 * m0 - 3 * m1 - 2 * m2 > 0 <==> b
  {
  }

  lemma Sign1(a: bool, b: bool, c: bool, d: bool, off: int, m0: int, m1: int, m2: int, amp: nat, noise: nat)
    requires Bearable(off, amp, noise) && !(c && d)
    requires Near(m0, SampleAround(a, b, c, d, off - 1, amp), noise)
    requires Near(m1, SampleAround(a, b, c, d, off + 4, amp), noise)
    requires Near(m2, SampleAround(a, b, c, d, off + 9, amp), noise)
    ensures 4 * m0 - m1 - 3 * m2 > 0 <==> b
  {
  }

  lemma Sign2(a: bool, b: bool, c: bool, d: bool, off: int, m0: int, m1: int, m2: int, amp: nat, noise: nat)
    requires Bearable(off, amp, noise) && !(c && d)
    requires Near(m0, SampleAround(a, b, c, d, off - 2, amp), noise)
    requires Near(m1, SampleAround(a, b, c, d, off + 3, amp), noise)
    requires Near(m2, SampleAround(a, b, c, d, off + 8, amp), noise)
    ensures 3 * m0 + m1 - 4 * m2 > 0 <==> b
  {
  }

  lemma Sign3(a: bool, b: bool, c: bool, d: bool, off: int, m0: int, m1: int, m2: int, amp: nat, noise: nat)
    requires Bearable(off, amp, noise) && !(c && d)
    requires Near(m0, SampleAround(a, b, c, d, off - 3, amp), noise)
    requires Near(m1, SampleAround(a, b, c, d, off + 2, amp), noise)
    requires Near(m2, SampleAround(a, b, c, d, off + 7, amp), noise)
    ensures 2 * m0 + 3 * m1 - 5 * m2 > 0 <==> b
  {
  }

  lemma Sign4(a: bool, b: bool, c: bool, d: bool, off: int, m0: int, m1: int, m2: int, m3: int, amp: nat, noise: nat)
    requires Bearable(off, amp, noise) && !(c && d)
    requires Near(m0, SampleAround(a, b, c, d, off - 4, amp), noise)
    requires Near(m1, SampleAround(a, b, c, d, off + 1, amp), noise)
    requires Near(m2, SampleAround(a, b, c, d, off + 6, amp), noise)
    requires Near(m3, SampleAround(a, b, c, d, off + 11, amp), noise)
    ensures m0 + 5 * m1 - 5 * m2 - m3 > 0 <==> b
  {
  }

  /** The surroundings of bit k. */
  function BeforeBit(bits: Bits, k: nat): bool
    requires k < |bits|
  {
    k > 0 && !bits[k - 1]
  }

  function NextFirst(bits: Bits, k: nat): bool {
    k + 1 < |bits| && bits[k + 1]
  }

  function NextSecond(bits: Bits, k: nat): bool {
    k + 1 < |bits| && !bits[k + 1]
  }

  lemma CarrierAround(bits: Bits, k: nat, r: int)
    requires k < |bits| && -6 <= r < 24
    ensures Carrier(bits, 12 * k + r) == Around(BeforeBit(bits, k), bits[k], NextFirst(bits, k), NextSecond(bits, k), r)
  {
    var t := 12 * k + r;
    if r < 0 {
      assert k > 0 ==> t / 12 == k - 1 && t % 12 == r + 12;
    } else if r < 12 {
      assert t / 12 == k && t % 12 == r;
    } else {
      assert t / 12 == k + 1 && t % 12 == r - 12;
    }
  }

  lemma MagnitudeAround(bits: Bits, k: nat, r: int, amp: nat)
    requires k < |bits| && -6 <= r < 20
    ensures Magnitude(bits, 12 * k + r, amp)
         == SampleAround(BeforeBit(bits, k), bits[k], NextFirst(bits, k), NextSecond(bits, k), r, amp)
  {
    hide Carrier, Around, BeforeBit, NextFirst, NextSecond;
    CarrierAround(bits, k, r);
    CarrierAround(bits, k, r + 1);
    CarrierAround(bits, k, r + 2);
    CarrierAround(bits, k, r + 3);
    CarrierAround(bits, k, r + 4);
  }

  lemma SliceLocal(m: seq<int>, w: seq<int>, p: nat, sp: nat)
    requires |w| == 4 && sp < 5 && p + Ahead(sp) < |m|
    requires forall i :: 0 <= i <= Ahead(sp) ==> w[i] == m[p + i]
    ensures Slice(m, p, sp) == Slice(w, 0, sp)
  {
  }

  /** Bit k of the message is what the slicer finds at a phase that bears the noise. */
  lemma WaveBit(mag: seq<int>, msg: seq<Byte>, j: nat, phase: nat, amp: nat, noise: nat, p: nat, k: nat)
    requires Holds(mag, msg, j, phase, amp, noise) && Bearable(p - phase, amp, noise)
    requires k < 8 * |msg| && j + 19 + Reach(p + 12 * k) < |mag|
    ensures MessageBit(mag, j + 19, p, k) == MessageBits(msg)[k]
  {
    hide Holds, SampleAround, Slice, BeforeBit, NextFirst, NextSecond, MessageBits, Near;
    var bits := MessageBits(msg);
    var q, sp, off := (p + 12 * k) / 5, (p + 12 * k) % 5, p - phase;
    var a, b, c, d := BeforeBit(bits, k), bits[k], NextFirst(bits, k), NextSecond(bits, k);
    var w := seq(4, i requires 0 <= i < 4 =>
      if i <= Ahead(sp) then mag[j + 19 + q + i] else SampleAround(a, b, c, d, off - sp + 5 * i, amp));
    forall i | 0 <= i < 4 ensures Near(w[i], SampleAround(a, b, c, d, off - sp + 5 * i, amp), noise) {
      if i <= Ahead(sp) {
        WaveSample(mag, msg, j, phase, amp, noise, j + 19 + q + i, k, off - sp + 5 * i);
      } else {
        NearItself(w[i], noise);
      }
    }
    SliceLocal(mag, w, j + 19 + q, sp);
    NotBothHalves(bits, k);
    SlicerReads(a, b, c, d, off, sp, w, amp, noise);
  }

  lemma NearItself(x: int, noise: nat)
    ensures Near(x, x, noise)
  {
  }

  lemma WaveSample(mag: seq<int>, msg: seq<Byte>, j: nat, phase: nat, amp: nat, noise: nat, i: nat, k: nat, r: int)
    requires Holds(mag, msg, j, phase, amp, noise) && j <= i < |mag|
    requires k < 8 * |msg| && -6 <= r < 20 && 5 * i - (5 * (j + 19) + phase) == 12 * k + r
    ensures var bits := MessageBits(msg);
      Near(mag[i], SampleAround(BeforeBit(bits, k), bits[k], NextFirst(bits, k), NextSecond(bits, k), r, amp), noise)
  {
    hide Holds, Magnitude, SampleAround, BeforeBit, NextFirst, NextSecond, MessageBits, Near;
    HoldsAt(mag, msg, j, phase, amp, noise, i, 12 * k + r);
    MagnitudeAround(MessageBits(msg), k, r, amp);
  }

  lemma HoldsAt(mag: seq<int>, msg: seq<Byte>, j: nat, phase: nat, amp: nat, noise: nat, i: nat, t: int)
    requires Holds(mag, msg, j, phase, amp, noise) && j <= i < |mag|
    requires t == 5 * i - (5 * (j + 19) + phase) && t < 96 * |msg| + 15
    ensures Near(mag[i], Magnitude(MessageBits(msg), t, amp), noise)
  {
    hide Magnitude, MessageBits, Near;
    assert HoldsSample(mag[i], msg, t, amp, noise) by {
      hide HoldsSample;
    }
  }

  lemma NotBothHalves(bits: Bits, k: nat)
    ensures !(NextFirst(bits, k) && NextSecond(bits, k))
  {
  }

  // ---------------------------------------------------------------- reading the message

  lemma {:induction false} SentBit(msg: seq<Byte>, i: nat, b: nat)
    requires i < |msg| && b < 8
    ensures MessageBits(msg)[8 * i + b] == msg[i][7 - b]
  {
    var n := |msg| - 1;
    if i < n {
      SentBit(msg[..n], i, b);
    }
  }

  /** The message is read at any phase that bears the noise. */
  lemma WaveExtracted(mag: seq<int>, msg: seq<Byte>, j: nat, phase: nat, amp: nat, noise: nat, p: nat)
    requires Holds(mag, msg, j, phase, amp, noise) && Bearable(p - phase, amp, noise)
    requires InBounds(mag, j + 19, p, |msg|)
    ensures Extracted(mag, j + 19, p, |msg|) == msg
  {
    hide Holds, Reach, MessageBit, Bearable;
    forall i | 0 <= i < |msg| ensures MessageByte(mag, j + 19, p, |msg|, i) == msg[i] {
      forall w | 0 <= w < 8 ensures MessageByte(mag, j + 19, p, |msg|, i)[w] == msg[i][w] {
        BitInBounds(mag, j + 19, p, |msg|, 8 * i + 7 - w);
        WaveBit(mag, msg, j, phase, amp, noise, p, 8 * i + 7 - w);
        SentBit(msg, i, 7 - w);
      }
    }
  }

  /** A message of a known format with the length that goes with it. */
  predicate WellFormed(msg: seq<Byte>) {
    && (LongFormat(FormatOf(msg)) || ShortFormat(FormatOf(msg)))
    && |msg| == if LongFormat(FormatOf(msg)) then 14 else 7
  }

  /** What was sent is what is read, at every phase tried that bears the noise: through any noise below
      a fifth of the peak at the phase itself, and through less at phases up to two fifths of a
      sample off. */
  lemma WaveRead(mag: seq<int>, msg: seq<Byte>, j: nat, phase: nat, amp: nat, noise: nat, p: nat)
    requires Holds(mag, msg, j, phase, amp, noise) && Bearable(p - phase, amp, noise)
    requires WellFormed(msg) && 4 <= p <= 8
    ensures MessageAt(mag, j, p) == msg
  {
    hide Holds, Extracted, FormatOf, Bearable;
    assert j + 290 < |mag| by { HoldsRoom(mag, msg, j, phase, amp, noise); }
    CandidatesInBounds(mag, j, p, 1);
    CandidatesInBounds(mag, j, p, 7);
    CandidatesInBounds(mag, j, p, 14);
    WaveExtracted(mag, msg, j, phase, amp, noise, p);
    FirstExtracted(mag, j + 19, p, |msg|);
    assert FormatOf(msg) == DownlinkFormat(msg[0]) by { FormatIs(msg); }
  }

  lemma HoldsRoom(mag: seq<int>, msg: seq<Byte>, j: nat, phase: nat, amp: nat, noise: nat)
    requires Holds(mag, msg, j, phase, amp, noise)
    ensures j + 290 < |mag| && 4 <= phase <= 8
  {
  }

  lemma FormatIs(msg: seq<Byte>)
    requires msg != []
    ensures FormatOf(msg) == DownlinkFormat(msg[0])
  {
  }

  // ---------------------------------------------------------------- the preamble

  lemma BeforeData(bits: Bits, t: int, amp: nat)
    requires t < -4
    ensures Magnitude(bits, t, amp)
         == Lit(Pulse(t), amp) + Lit(Pulse(t + 1), amp) + Lit(Pulse(t + 2), amp) + Lit(Pulse(t + 3), amp)
            + Lit(Pulse(t + 4), amp)
  {
  }

  lemma WavePreamble(mag: seq<int>, msg: seq<Byte>, j: nat, phase: nat, amp: nat, noise: nat, i: nat)
    requires Holds(mag, msg, j, phase, amp, noise) && i <= 18
    ensures Near(mag[j + i], Glow(phase, i, amp), noise)
  {
    hide Holds, Magnitude, Pulse, Near, MessageBits;
    HoldsRoom(mag, msg, j, phase, amp, noise);
    HoldsAt(mag, msg, j, phase, amp, noise, j + i, 5 * i - 95 - phase);
    BeforeData(MessageBits(msg), 5 * i - 95 - phase, amp);
  }

  /** At each of the five phases, through any noise below a fifth of the peak, the place of the
      transmission is a candidate with a plausible preamble. */
  lemma WavePlausible(mag: seq<int>, msg: seq<Byte>, j: nat, phase: nat, amp: nat, noise: nat)
    requires Holds(mag, msg, j, phase, amp, noise) && noise < amp
    ensures j + 290 < |mag| && Edges(mag, j) && Plausible(mag, j)
  {
    hide Holds, Glow, Quiet, Near;
    HoldsRoom(mag, msg, j, phase, amp, noise);
    var p := mag[j..j + 19];
    forall i | 0 <= i < 19 ensures Near(p[i], Glow(phase, i, amp), noise) {
      WavePreamble(mag, msg, j, phase, amp, noise, i);
    }
    NoisyPreamble(p, phase, amp, noise);
    assert mag[j] == p[0] && mag[j + 1] == p[1] && mag[j + 12] == p[12] && mag[j + 13] == p[13];
  }

  // ---------------------------------------------------------------- squitters are received

  /** An extended squitter, received at any of the five phases with any amplitude and through any noise
      below a fifth of its peak, is reported as a squitter, whatever addresses are known. */
  lemma SquitterReceived(mag: seq<int>, msg: seq<Byte>, j: nat, phase: nat, amp: nat, noise: nat, s: Scan)
    requires Holds(mag, msg, j, phase, amp, noise) && noise < amp && Squitter(msg) && |msg| == 14
    requires s.skip <= j && |s.found| < MAX_MESSAGES
    ensures var s' := Tried(mag, s, j);
      && |s'.found| == |s.found| + 1 && s.found <= s'.found && s'.skip == j + 288
      && s'.found[|s.found|].offset == j && Squitter(s'.found[|s.found|].msg)
  {
    hide Holds, MessageAt, Squitter, HeldAt, Plausible, Rank, ChosenBelow, Accepted, Edges;
    assert Bearable(phase - phase, amp, noise);
    HoldsRoom(mag, msg, j, phase, amp, noise);
    SquitterFormed(msg);
    WavePlausible(mag, msg, j, phase, amp, noise);
    WaveRead(mag, msg, j, phase, amp, noise, phase);
    RankMeans(msg, HeldAt(mag, j, phase, s.book));
    ChosenIsBest(mag, j, 9, s.book);
    assert ScoreAt(mag, j, phase, s.book) >= 500;
    var p := Chosen(mag, j, s.book);
    RankMeans(MessageAt(mag, j, p), HeldAt(mag, j, p, s.book));
    SquitterLength(mag, j, p);
  }

  lemma SquitterLength(mag: seq<int>, j: nat, p: nat)
    requires j + 290 < |mag| && p <= 8 && Squitter(MessageAt(mag, j, p))
    ensures |MessageAt(mag, j, p)| == 14
  {
    hide MessageAt, CrcOf, DownlinkFormat;
    FirstByte(mag, j, p);
  }

  /** The samples a report is given are those the message lasts: eight microseconds of preamble and one
      for every bit, in whole samples. */
  lemma SpanIsDuration(msg: seq<Byte>)
    requires |msg| == 7 || |msg| == 14
    ensures Span(msg) == (96 + 12 * (8 * |msg|)) / 5
  {
  }

  /** So the next transmission is not missed: two squitters, the second not before the first has ended,
      are both reported, each with its own amplitude, phase and noise. */
  lemma TwoSquittersReceived(mag: seq<int>, first: seq<Byte>, j: nat, phase: nat, amp: nat, noise: nat,
                             second: seq<Byte>, j': nat, phase': nat, amp': nat, noise': nat, s: Scan)
    requires Holds(mag, first, j, phase, amp, noise) && noise < amp && Squitter(first) && |first| == 14
    requires Holds(mag, second, j', phase', amp', noise') && noise' < amp' && Squitter(second) && |second| == 14
    requires j' >= j + (96 + 12 * (8 * |first|)) / 5 && s.skip <= j && |s.found| + 1 < MAX_MESSAGES
    ensures j + 290 < |mag| && j' + 290 < |mag|
    ensures var s' := Tried(mag, Tried(mag, s, j), j');
      && |s'.found| == |s.found| + 2
      && s'.found[|s.found|].offset == j && Squitter(s'.found[|s.found|].msg)
      && s'.found[|s.found| + 1].offset == j' && Squitter(s'.found[|s.found| + 1].msg)
  {
    hide Holds, Squitter, Tried;
    HoldsRoom(mag, first, j, phase, amp, noise);
    HoldsRoom(mag, second, j', phase', amp', noise');
    SquitterReceived(mag, first, j, phase, amp, noise, s);
    SquitterReceived(mag, second, j', phase', amp', noise', Tried(mag, s, j));
  }

  lemma SquitterFormed(msg: seq<Byte>)
    requires Squitter(msg) && |msg| == 14
    ensures WellFormed(msg)
  {
    hide CrcOf, DownlinkFormat;
  }

  // ---------------------------------------------------------------- one transmission confirms itself

  /** The first phase tried that is at most two off. */
  function FirstPhase(phase: nat): nat {
    if phase <= 6 then 4 else phase - 2
  }

  /** The two-hit rule is met by a single transmission. An all-call reply from an address neither
      known nor pending, received once through noise below two twenty-fifths of its peak, is noted at
      the first phase that reads it and accepted at the next, so that its candidate is reported, as
      long as there was room to note it and to report. */
  lemma OneHearingConfirms(mag: seq<int>, msg: seq<Byte>, j: nat, phase: nat, amp: nat, noise: nat, s: Scan)
    requires Holds(mag, msg, j, phase, amp, noise) && 5 * noise < 2 * amp && AllCall(msg) && |msg| == 7
    requires j + 290 < |mag| && 4 <= phase <= 8
    requires Sender(msg) !in s.book.known && Sender(msg) !in s.book.pending
    requires |HeldAt(mag, j, FirstPhase(phase), s.book).pending| < s.book.maxPending
    requires s.skip <= j && |s.found| < MAX_MESSAGES
    ensures ScoreAt(mag, j, FirstPhase(phase) + 1, s.book) > 0
    ensures |Tried(mag, s, j).found| == |s.found| + 1
  {
    hide Holds, MessageAt, AllCall, Sender, HeldAt, Plausible, Rank, ChosenBelow, Accepted, Edges;
    var p := FirstPhase(phase);
    AllCallFormed(msg);
    WavePlausible(mag, msg, j, phase, amp, noise);
    WaveRead(mag, msg, j, phase, amp, noise, p);
    WaveRead(mag, msg, j, phase, amp, noise, p + 1);
    ConfirmedExactly(mag, j, p + 1, s.book);
    assert Reads(mag, j, p, Sender(MessageAt(mag, j, p + 1)));
    ChosenIsBest(mag, j, 9, s.book);
  }

  lemma AllCallFormed(msg: seq<Byte>)
    requires AllCall(msg) && |msg| == 7
    ensures WellFormed(msg)
  {
    hide CrcOf, DownlinkFormat;
  }

  /** What an all-call reply is: format 11, and a parity that differs from that of its first four bytes
      by an interrogator code of at most 80. */
  lemma AllCallExactly(header: seq<Byte>, tail: seq<Byte>)
    requires |header| == 4 && |tail| == 3
    ensures AllCall(header + tail) <==>
      && ByteValue(header[0]) / 8 == 11
      && exists code: Rem :: Value(code) <= 80 && Tail(tail) == Xor(Divide(MessageBits(header) + Zero(24)), code)
  {
    hide DownlinkFormat, Divide, MessageBits, Value, ByteValue, CrcOf, Xor, Zero, Tail, Crc24.Crc24;
    var msg := header + tail;
    FormatIs(msg);
    FormatValue(header[0]);
    forall code: Rem
      ensures CrcOf(msg) == code <==> Tail(tail) == Xor(Divide(MessageBits(header) + Zero(24)), code)
    {
      AddressRecovered(header, tail, code);
      CheckIs(msg, code);
    }
    var code := CrcOf(msg);
    assert Tail(tail) == Xor(Divide(MessageBits(header) + Zero(24)), code);
  }

  /** And there is such a reply for every address and every first byte of format 11. */
  lemma AnySenderCan(header: seq<Byte>) returns (msg: seq<Byte>)
    requires |header| == 4 && DownlinkFormat(header[0]) == 11
    ensures |msg| == 7 && AllCall(msg) && Sender(msg) == Sender(header) && msg[..4] == header
  {
    hide DownlinkFormat, Divide, MessageBits, Value, CrcOf, Xor, Zero, Tail;
    var parity := Divide(MessageBits(header) + Zero(24));
    var tail: seq<Byte> := [parity[16..], parity[8..16], parity[..8]];
    msg := header + tail;
    AddressRecovered(header, tail, Zero(24));
    ParityTail(parity, tail);
    CheckIs(msg, Zero(24));
    ZeroValue(24);
    SameSender(header, tail);
  }

  lemma CheckIs(msg: seq<Byte>, code: Rem)
    requires |msg| >= 3
    ensures Crc24.Crc24(msg) == Remainder(code) <==> CrcOf(msg) == code
  {
    hide Divide, MessageBits;
  }

  lemma SameSender(header: seq<Byte>, tail: seq<Byte>)
    requires |header| == 4
    ensures Sender(header + tail) == Sender(header) && FormatOf(header + tail) == FormatOf(header)
  {
    hide DownlinkFormat, Zero;
    assert (header + tail)[0] == header[0];
  }

  lemma ParityTail(parity: Rem, tail: seq<Byte>)
    requires tail == [parity[16..], parity[8..16], parity[..8]]
    ensures Tail(tail) == parity && Xor(parity, Zero(24)) == parity
  {
  }

  lemma {:induction false} ZeroValue(n: nat)
    ensures Value(Zero(n)) == 0
  {
    if n > 0 {
      ZeroValue(n - 1);
      assert Zero(n)[1..] == Zero(n - 1);
    }
  }
}
