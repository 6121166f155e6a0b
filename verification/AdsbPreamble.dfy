/** The preamble of a transmission, from where its pulses are, and what the detector's test of it lets
    through: any amplitude, noise below a fifth of the peak, and exactly so much in the gaps. */
module AdsbPreamble {
  import opened AdsbDetect

  // ---------------------------------------------------------------- pulses

  /** The preamble pulses begin 8, 7, 4.5 and 3.5 microseconds before the data. */
  predicate Pulse(t: int) {
    -96 <= t < -90 || -84 <= t < -78 || -54 <= t < -48 || -42 <= t < -36
  }

  /** What a fifth of a sample adds to a magnitude. */
  function Lit(on: bool, amp: nat): int {
    if on then amp else 0
  }

  predicate Near(x: int, y: int, noise: nat) {
    x - y <= noise && y - x <= noise
  }

  /** How much of the preamble falls into sample i from its candidate on. */
  function Glow(phase: nat, i: nat, amp: nat): int {
    var t := 5 * i - 95 - phase;
    Lit(Pulse(t), amp) + Lit(Pulse(t + 1), amp) + Lit(Pulse(t + 2), amp) + Lit(Pulse(t + 3), amp)
    + Lit(Pulse(t + 4), amp)
  }

  predicate InGap(i: nat) {
    5 <= i <= 8 || 14 <= i <= 18
  }

  /** Nineteen samples that hold the preamble up to noise. */
  ghost predicate HoldsPreamble(p: seq<int>, phase: nat, amp: nat, noise: nat) {
    |p| == 19 && forall i :: 0 <= i < 19 ==> Near(p[i], Glow(phase, i, amp), noise)
  }

  /** Nineteen samples that hold it exactly but for whatever is in the gaps. */
  ghost predicate HoldsPulses(p: seq<int>, phase: nat, amp: nat) {
    |p| == 19 && forall i :: 0 <= i < 19 && !InGap(i) ==> p[i] == Glow(phase, i, amp)
  }

  /** The preamble at phase 4, sample by sample. */
  function Row4(amp: nat): (row: seq<int>)
    ensures |row| == 19
  {
    [2 * amp, 4 * amp, 0, 5 * amp, amp, 0, 0, 0, 0, 5 * amp, amp, 3 * amp, 3 * amp, 0, 0, 0, 0, 0, 0]
  }

  lemma GlowRow4(i: nat, amp: nat)
    requires i < 19
    ensures Glow(4, i, amp) == Row4(amp)[i]
  {
    hide Glow;
    if i < 9 {
      FrontOfRow4(i, amp);
    } else {
      BackOfRow4(i, amp);
    }
  }

  lemma FrontOfRow4(i: nat, amp: nat)
    requires i < 9
    ensures Glow(4, i, amp) == Row4(amp)[i]
  {
    match i
    case 0 => case 1 => case 2 => case 3 => case 4 => case 5 => case 6 => case 7 => case _ =>
  }

  lemma BackOfRow4(i: nat, amp: nat)
    requires 9 <= i < 19
    ensures Glow(4, i, amp) == Row4(amp)[i]
  {
    match i
    case 9 => case 10 => case 11 => case 12 => case 13 => case 14 => case 15 => case 16 => case 17 => case _ =>
  }

  /** The preamble at phase 5, sample by sample. */
  function Row5(amp: nat): (row: seq<int>)
    ensures |row| == 19
  {
    [amp, 5 * amp, 0, 4 * amp, 2 * amp, 0, 0, 0, 0, 4 * amp, 2 * amp, 2 * amp, 4 * amp, 0, 0, 0, 0, 0, 0]
  }

  lemma GlowRow5(i: nat, amp: nat)
    requires i < 19
    ensures Glow(5, i, amp) == Row5(amp)[i]
  {
    hide Glow;
    if i < 9 {
      FrontOfRow5(i, amp);
    } else {
      BackOfRow5(i, amp);
    }
  }

  lemma FrontOfRow5(i: nat, amp: nat)
    requires i < 9
    ensures Glow(5, i, amp) == Row5(amp)[i]
  {
    match i
    case 0 => case 1 => case 2 => case 3 => case 4 => case 5 => case 6 => case 7 => case _ =>
  }

  lemma BackOfRow5(i: nat, amp: nat)
    requires 9 <= i < 19
    ensures Glow(5, i, amp) == Row5(amp)[i]
  {
    match i
    case 9 => case 10 => case 11 => case 12 => case 13 => case 14 => case 15 => case 16 => case 17 => case _ =>
  }

  /** The preamble at phase 6, sample by sample. */
  function Row6(amp: nat): (row: seq<int>)
    ensures |row| == 19
  {
    [0, 5 * amp, amp, 3 * amp, 3 * amp, 0, 0, 0, 0, 3 * amp, 3 * amp, amp, 5 * amp, 0, 0, 0, 0, 0, 0]
  }

  lemma GlowRow6(i: nat, amp: nat)
    requires i < 19
    ensures Glow(6, i, amp) == Row6(amp)[i]
  {
    hide Glow;
    if i < 9 {
      FrontOfRow6(i, amp);
    } else {
      BackOfRow6(i, amp);
    }
  }

  lemma FrontOfRow6(i: nat, amp: nat)
    requires i < 9
    ensures Glow(6, i, amp) == Row6(amp)[i]
  {
    match i
    case 0 => case 1 => case 2 => case 3 => case 4 => case 5 => case 6 => case 7 => case _ =>
  }

  lemma BackOfRow6(i: nat, amp: nat)
    requires 9 <= i < 19
    ensures Glow(6, i, amp) == Row6(amp)[i]
  {
    match i
    case 9 => case 10 => case 11 => case 12 => case 13 => case 14 => case 15 => case 16 => case 17 => case _ =>
  }

  /** The preamble at phase 7, sample by sample. */
  function Row7(amp: nat): (row: seq<int>)
    ensures |row| == 19
  {
    [0, 4 * amp, 2 * amp, 2 * amp, 4 * amp, 0, 0, 0, 0, 2 * amp, 4 * amp, 0, 5 * amp, amp, 0, 0, 0, 0, 0]
  }

  lemma GlowRow7(i: nat, amp: nat)
    requires i < 19
    ensures Glow(7, i, amp) == Row7(amp)[i]
  {
    hide Glow;
    if i < 9 {
      FrontOfRow7(i, amp);
    } else {
      BackOfRow7(i, amp);
    }
  }

  lemma FrontOfRow7(i: nat, amp: nat)
    requires i < 9
    ensures Glow(7, i, amp) == Row7(amp)[i]
  {
    match i
    case 0 => case 1 => case 2 => case 3 => case 4 => case 5 => case 6 => case 7 => case _ =>
  }

  lemma BackOfRow7(i: nat, amp: nat)
    requires 9 <= i < 19
    ensures Glow(7, i, amp) == Row7(amp)[i]
  {
    match i
    case 9 => case 10 => case 11 => case 12 => case 13 => case 14 => case 15 => case 16 => case 17 => case _ =>
  }

  /** The preamble at phase 8, sample by sample. */
  function Row8(amp: nat): (row: seq<int>)
    ensures |row| == 19
  {
    [0, 3 * amp, 3 * amp, amp, 5 * amp, 0, 0, 0, 0, amp, 5 * amp, 0, 4 * amp, 2 * amp, 0, 0, 0, 0, 0]
  }

  lemma GlowRow8(i: nat, amp: nat)
    requires i < 19
    ensures Glow(8, i, amp) == Row8(amp)[i]
  {
    hide Glow;
    if i < 9 {
      FrontOfRow8(i, amp);
    } else {
      BackOfRow8(i, amp);
    }
  }

  lemma FrontOfRow8(i: nat, amp: nat)
    requires i < 9
    ensures Glow(8, i, amp) == Row8(amp)[i]
  {
    match i
    case 0 => case 1 => case 2 => case 3 => case 4 => case 5 => case 6 => case 7 => case _ =>
  }

  lemma BackOfRow8(i: nat, amp: nat)
    requires 9 <= i < 19
    ensures Glow(8, i, amp) == Row8(amp)[i]
  {
    match i
    case 9 => case 10 => case 11 => case 12 => case 13 => case 14 => case 15 => case 16 => case 17 => case _ =>
  }

  ghost predicate GapsBelow(p: seq<int>, high: int)
    requires |p| == 19
  {
    && p[5] < high && p[6] < high && p[7] < high && p[8] < high
    && p[14] < high && p[15] < high && p[16] < high && p[17] < high && p[18] < high
  }

  /** How much the gaps may hold: every gap sample stays below a quarter of the samples that are lit for
      three fifths or more; twice the samples lit for four fifths or more bear three times the gap
      samples between the pulses; and a gap sample next to a pulse stays below its flank. */
  ghost predicate GapsBorne(p: seq<int>, phase: nat, amp: nat)
    requires |p| == 19
  {
    match phase
    case 4 => 28 * amp >= 3 * (p[5] + p[6] + p[7]) && GapsBelow(p, 5 * amp)
    case 5 => p[8] < 4 * amp && 34 * amp >= 3 * (p[5] + p[6] + p[7] + p[8]) && GapsBelow(p, 17 * amp / 4)
    case 6 => p[5] < 3 * amp && p[8] < 3 * amp && 20 * amp >= 3 * (p[6] + p[7]) && GapsBelow(p, 22 * amp / 4)
    case 7 => p[5] < 4 * amp && 34 * amp >= 3 * (p[5] + p[6] + p[7] + p[8]) && GapsBelow(p, 17 * amp / 4)
    case 8 => 28 * amp >= 3 * (p[6] + p[7] + p[8]) && GapsBelow(p, 5 * amp)
    case _ => false
  }

  lemma NoisyRow4(p: seq<int>, amp: nat, noise: nat)
    requires |p| == 19 && noise < amp && forall i :: 0 <= i < 19 ==> Near(p[i], Row4(amp)[i], noise)
    ensures Quiet(p) && p[0] < p[1] && p[12] > p[13]
  {
    assert Near(p[0], 2 * amp, noise);
    assert Near(p[1], 4 * amp, noise);
    assert Near(p[2], 0, noise);
    assert Near(p[3], 5 * amp, noise);
    assert Near(p[4], amp, noise);
    assert Near(p[5], 0, noise);
    assert Near(p[6], 0, noise);
    assert Near(p[7], 0, noise);
    assert Near(p[8], 0, noise);
    assert Near(p[9], 5 * amp, noise);
    assert Near(p[10], amp, noise);
    assert Near(p[11], 3 * amp, noise);
    assert Near(p[12], 3 * amp, noise);
    assert Near(p[13], 0, noise);
    assert Near(p[14], 0, noise);
    assert Near(p[15], 0, noise);
    assert Near(p[16], 0, noise);
    assert Near(p[17], 0, noise);
    assert Near(p[18], 0, noise);
  }

  lemma GapsOfRow4(p: seq<int>, amp: nat)
    requires amp >= 1 && |p| == 19 && forall i :: 0 <= i < 19 && !InGap(i) ==> p[i] == Row4(amp)[i]
    ensures Quiet(p) <==> GapsBorne(p, 4, amp)
  {
    assert p[0] == 2 * amp;
    assert p[1] == 4 * amp;
    assert p[2] == 0;
    assert p[3] == 5 * amp;
    assert p[4] == amp;
    assert p[9] == 5 * amp;
    assert p[10] == amp;
    assert p[11] == 3 * amp;
    assert p[12] == 3 * amp;
    assert p[13] == 0;
  }

  lemma NoisyRow5(p: seq<int>, amp: nat, noise: nat)
    requires |p| == 19 && noise < amp && forall i :: 0 <= i < 19 ==> Near(p[i], Row5(amp)[i], noise)
    ensures Quiet(p) && p[0] < p[1] && p[12] > p[13]
  {
    assert Near(p[0], amp, noise);
    assert Near(p[1], 5 * amp, noise);
    assert Near(p[2], 0, noise);
    assert Near(p[3], 4 * amp, noise);
    assert Near(p[4], 2 * amp, noise);
    assert Near(p[5], 0, noise);
    assert Near(p[6], 0, noise);
    assert Near(p[7], 0, noise);
    assert Near(p[8], 0, noise);
    assert Near(p[9], 4 * amp, noise);
    assert Near(p[10], 2 * amp, noise);
    assert Near(p[11], 2 * amp, noise);
    assert Near(p[12], 4 * amp, noise);
    assert Near(p[13], 0, noise);
    assert Near(p[14], 0, noise);
    assert Near(p[15], 0, noise);
    assert Near(p[16], 0, noise);
    assert Near(p[17], 0, noise);
    assert Near(p[18], 0, noise);
  }

  lemma GapsOfRow5(p: seq<int>, amp: nat)
    requires amp >= 1 && |p| == 19 && forall i :: 0 <= i < 19 && !InGap(i) ==> p[i] == Row5(amp)[i]
    ensures Quiet(p) <==> GapsBorne(p, 5, amp)
  {
    assert p[0] == amp;
    assert p[1] == 5 * amp;
    assert p[2] == 0;
    assert p[3] == 4 * amp;
    assert p[4] == 2 * amp;
    assert p[9] == 4 * amp;
    assert p[10] == 2 * amp;
    assert p[11] == 2 * amp;
    assert p[12] == 4 * amp;
    assert p[13] == 0;
  }

  lemma NoisyRow6(p: seq<int>, amp: nat, noise: nat)
    requires |p| == 19 && noise < amp && forall i :: 0 <= i < 19 ==> Near(p[i], Row6(amp)[i], noise)
    ensures Quiet(p) && p[0] < p[1] && p[12] > p[13]
  {
    assert Near(p[0], 0, noise);
    assert Near(p[1], 5 * amp, noise);
    assert Near(p[2], amp, noise);
    assert Near(p[3], 3 * amp, noise);
    assert Near(p[4], 3 * amp, noise);
    assert Near(p[5], 0, noise);
    assert Near(p[6], 0, noise);
    assert Near(p[7], 0, noise);
    assert Near(p[8], 0, noise);
    assert Near(p[9], 3 * amp, noise);
    assert Near(p[10], 3 * amp, noise);
    assert Near(p[11], amp, noise);
    assert Near(p[12], 5 * amp, noise);
    assert Near(p[13], 0, noise);
    assert Near(p[14], 0, noise);
    assert Near(p[15], 0, noise);
    assert Near(p[16], 0, noise);
    assert Near(p[17], 0, noise);
    assert Near(p[18], 0, noise);
  }

  lemma GapsOfRow6(p: seq<int>, amp: nat)
    requires amp >= 1 && |p| == 19 && forall i :: 0 <= i < 19 && !InGap(i) ==> p[i] == Row6(amp)[i]
    ensures Quiet(p) <==> GapsBorne(p, 6, amp)
  {
    assert p[0] == 0;
    assert p[1] == 5 * amp;
    assert p[2] == amp;
    assert p[3] == 3 * amp;
    assert p[4] == 3 * amp;
    assert p[9] == 3 * amp;
    assert p[10] == 3 * amp;
    assert p[11] == amp;
    assert p[12] == 5 * amp;
    assert p[13] == 0;
  }

  lemma NoisyRow7(p: seq<int>, amp: nat, noise: nat)
    requires |p| == 19 && noise < amp && forall i :: 0 <= i < 19 ==> Near(p[i], Row7(amp)[i], noise)
    ensures Quiet(p) && p[0] < p[1] && p[12] > p[13]
  {
    assert Near(p[0], 0, noise);
    assert Near(p[1], 4 * amp, noise);
    assert Near(p[2], 2 * amp, noise);
    assert Near(p[3], 2 * amp, noise);
    assert Near(p[4], 4 * amp, noise);
    assert Near(p[5], 0, noise);
    assert Near(p[6], 0, noise);
    assert Near(p[7], 0, noise);
    assert Near(p[8], 0, noise);
    assert Near(p[9], 2 * amp, noise);
    assert Near(p[10], 4 * amp, noise);
    assert Near(p[11], 0, noise);
    assert Near(p[12], 5 * amp, noise);
    assert Near(p[13], amp, noise);
    assert Near(p[14], 0, noise);
    assert Near(p[15], 0, noise);
    assert Near(p[16], 0, noise);
    assert Near(p[17], 0, noise);
    assert Near(p[18], 0, noise);
  }

  lemma GapsOfRow7(p: seq<int>, amp: nat)
    requires amp >= 1 && |p| == 19 && forall i :: 0 <= i < 19 && !InGap(i) ==> p[i] == Row7(amp)[i]
    ensures Quiet(p) <==> GapsBorne(p, 7, amp)
  {
    assert p[0] == 0;
    assert p[1] == 4 * amp;
    assert p[2] == 2 * amp;
    assert p[3] == 2 * amp;
    assert p[4] == 4 * amp;
    assert p[9] == 2 * amp;
    assert p[10] == 4 * amp;
    assert p[11] == 0;
    assert p[12] == 5 * amp;
    assert p[13] == amp;
  }

  lemma NoisyRow8(p: seq<int>, amp: nat, noise: nat)
    requires |p| == 19 && noise < amp && forall i :: 0 <= i < 19 ==> Near(p[i], Row8(amp)[i], noise)
    ensures Quiet(p) && p[0] < p[1] && p[12] > p[13]
  {
    assert Near(p[0], 0, noise);
    assert Near(p[1], 3 * amp, noise);
    assert Near(p[2], 3 * amp, noise);
    assert Near(p[3], amp, noise);
    assert Near(p[4], 5 * amp, noise);
    assert Near(p[5], 0, noise);
    assert Near(p[6], 0, noise);
    assert Near(p[7], 0, noise);
    assert Near(p[8], 0, noise);
    assert Near(p[9], amp, noise);
    assert Near(p[10], 5 * amp, noise);
    assert Near(p[11], 0, noise);
    assert Near(p[12], 4 * amp, noise);
    assert Near(p[13], 2 * amp, noise);
    assert Near(p[14], 0, noise);
    assert Near(p[15], 0, noise);
    assert Near(p[16], 0, noise);
    assert Near(p[17], 0, noise);
    assert Near(p[18], 0, noise);
  }

  lemma GapsOfRow8(p: seq<int>, amp: nat)
    requires amp >= 1 && |p| == 19 && forall i :: 0 <= i < 19 && !InGap(i) ==> p[i] == Row8(amp)[i]
    ensures Quiet(p) <==> GapsBorne(p, 8, amp)
  {
    assert p[0] == 0;
    assert p[1] == 3 * amp;
    assert p[2] == 3 * amp;
    assert p[3] == amp;
    assert p[4] == 5 * amp;
    assert p[9] == amp;
    assert p[10] == 5 * amp;
    assert p[11] == 0;
    assert p[12] == 4 * amp;
    assert p[13] == 2 * amp;
  }

  // ---------------------------------------------------------------- what is let through

  /** Any amplitude, and noise below a fifth of the peak: the preamble is found at each phase. */
  lemma NoisyPreamble(p: seq<int>, phase: nat, amp: nat, noise: nat)
    requires 4 <= phase <= 8 && noise < amp && HoldsPreamble(p, phase, amp, noise)
    ensures Quiet(p) && p[0] < p[1] && p[12] > p[13]
  {
    hide Quiet, Near, Glow;
    match phase
    case 4 =>
      forall i | 0 <= i < 19 ensures Near(p[i], Row4(amp)[i], noise) {
        GlowRow4(i, amp);
      }
      NoisyRow4(p, amp, noise);
    case 5 =>
      forall i | 0 <= i < 19 ensures Near(p[i], Row5(amp)[i], noise) {
        GlowRow5(i, amp);
      }
      NoisyRow5(p, amp, noise);
    case 6 =>
      forall i | 0 <= i < 19 ensures Near(p[i], Row6(amp)[i], noise) {
        GlowRow6(i, amp);
      }
      NoisyRow6(p, amp, noise);
    case 7 =>
      forall i | 0 <= i < 19 ensures Near(p[i], Row7(amp)[i], noise) {
        GlowRow7(i, amp);
      }
      NoisyRow7(p, amp, noise);
    case _ =>
      forall i | 0 <= i < 19 ensures Near(p[i], Row8(amp)[i], noise) {
        GlowRow8(i, amp);
      }
      NoisyRow8(p, amp, noise);
  }

  /** With clean pulses, exactly so much may be in the gaps. */
  lemma GapsExactly(p: seq<int>, phase: nat, amp: nat)
    requires 4 <= phase <= 8 && amp >= 1 && HoldsPulses(p, phase, amp)
    ensures Quiet(p) <==> GapsBorne(p, phase, amp)
  {
    hide Quiet, GapsBorne, Glow;
    match phase
    case 4 =>
      forall i | 0 <= i < 19 && !InGap(i) ensures p[i] == Row4(amp)[i] {
        GlowRow4(i, amp);
      }
      GapsOfRow4(p, amp);
    case 5 =>
      forall i | 0 <= i < 19 && !InGap(i) ensures p[i] == Row5(amp)[i] {
        GlowRow5(i, amp);
      }
      GapsOfRow5(p, amp);
    case 6 =>
      forall i | 0 <= i < 19 && !InGap(i) ensures p[i] == Row6(amp)[i] {
        GlowRow6(i, amp);
      }
      GapsOfRow6(p, amp);
    case 7 =>
      forall i | 0 <= i < 19 && !InGap(i) ensures p[i] == Row7(amp)[i] {
        GlowRow7(i, amp);
      }
      GapsOfRow7(p, amp);
    case _ =>
      forall i | 0 <= i < 19 && !InGap(i) ensures p[i] == Row8(amp)[i] {
        GlowRow8(i, amp);
      }
      GapsOfRow8(p, amp);
  }

  /** A sample, if the pulses light it for at least so many fifths. */
  function Lighted(p: seq<int>, phase: nat, least: int, i: nat): int
    requires i < |p|
  {
    if Glow(phase, i, 1) >= least then p[i] else 0
  }

  /** The sum of those samples. */
  function LitAtLeast(p: seq<int>, phase: nat, least: int): int
    requires |p| == 19
  {
    Lighted(p, phase, least, 0) + Lighted(p, phase, least, 1) + Lighted(p, phase, least, 2)
    + Lighted(p, phase, least, 3) + Lighted(p, phase, least, 4) + Lighted(p, phase, least, 5)
    + Lighted(p, phase, least, 6) + Lighted(p, phase, least, 7) + Lighted(p, phase, least, 8)
    + Lighted(p, phase, least, 9) + Lighted(p, phase, least, 10) + Lighted(p, phase, least, 11)
    + Lighted(p, phase, least, 12) + Lighted(p, phase, least, 13) + Lighted(p, phase, least, 14)
    + Lighted(p, phase, least, 15) + Lighted(p, phase, least, 16) + Lighted(p, phase, least, 17)
    + Lighted(p, phase, least, 18)
  }

  /** The gap samples between the pulses that are counted against them. */
  function BetweenPulses(p: seq<int>, phase: nat): int
    requires |p| == 19
  {
    p[6] + p[7] + (if phase == 6 || phase == 8 then 0 else p[5]) + (if phase == 4 || phase == 6 then 0 else p[8])
  }

  /** What is accepted, whatever it is: at some phase twice the samples that should be lit for four fifths
      or more bear three times the gap samples between the pulses, and every gap sample is below a
      quarter of the samples that should be lit for three fifths or more. */
  ghost predicate LooksLike(p: seq<int>, phase: nat)
    requires |p| == 19
  {
    && 2 * LitAtLeast(p, phase, 4) >= 3 * BetweenPulses(p, phase)
    && GapsBelow(p, LitAtLeast(p, phase, 3) / 4)
  }

  lemma LitSums4(p: seq<int>)
    requires |p| == 19
    ensures LitAtLeast(p, 4, 4) == p[1] + p[3] + p[9]
    ensures LitAtLeast(p, 4, 3) == p[1] + p[3] + p[9] + p[11] + p[12]
  {
    hide Glow;
    forall i | 0 <= i < 19 ensures Glow(4, i, 1) == Row4(1)[i] {
      GlowRow4(i, 1);
    }
  }

  lemma LitSums5(p: seq<int>)
    requires |p| == 19
    ensures LitAtLeast(p, 5, 4) == p[1] + p[3] + p[9] + p[12]
    ensures LitAtLeast(p, 5, 3) == p[1] + p[3] + p[9] + p[12]
  {
    hide Glow;
    forall i | 0 <= i < 19 ensures Glow(5, i, 1) == Row5(1)[i] {
      GlowRow5(i, 1);
    }
  }

  lemma LitSums6(p: seq<int>)
    requires |p| == 19
    ensures LitAtLeast(p, 6, 4) == p[1] + p[12]
    ensures LitAtLeast(p, 6, 3) == p[1] + p[3] + p[4] + p[9] + p[10] + p[12]
  {
    hide Glow;
    forall i | 0 <= i < 19 ensures Glow(6, i, 1) == Row6(1)[i] {
      GlowRow6(i, 1);
    }
  }

  lemma LitSums7(p: seq<int>)
    requires |p| == 19
    ensures LitAtLeast(p, 7, 4) == p[1] + p[4] + p[10] + p[12]
    ensures LitAtLeast(p, 7, 3) == p[1] + p[4] + p[10] + p[12]
  {
    hide Glow;
    forall i | 0 <= i < 19 ensures Glow(7, i, 1) == Row7(1)[i] {
      GlowRow7(i, 1);
    }
  }

  lemma LitSums8(p: seq<int>)
    requires |p| == 19
    ensures LitAtLeast(p, 8, 4) == p[4] + p[10] + p[12]
    ensures LitAtLeast(p, 8, 3) == p[1] + p[2] + p[4] + p[10] + p[12]
  {
    hide Glow;
    forall i | 0 <= i < 19 ensures Glow(8, i, 1) == Row8(1)[i] {
      GlowRow8(i, 1);
    }
  }

  lemma QuietMeans(p: seq<int>)
    requires |p| == 19 && Quiet(p)
    ensures exists phase :: 4 <= phase <= 8 && LooksLike(p, phase)
  {
    hide LitAtLeast;
    LitSums4(p);
    LitSums5(p);
    LitSums6(p);
    LitSums7(p);
    LitSums8(p);
    if p[1] > p[2] && p[2] < p[3] && p[3] > p[4] && p[8] < p[9] && p[9] > p[10] && p[10] < p[11] {
      assert LooksLike(p, 4);
    } else if p[1] > p[2] && p[2] < p[3] && p[3] > p[4] && p[8] < p[9] && p[9] > p[10] && p[11] < p[12] {
      assert LooksLike(p, 5);
    } else if p[1] > p[2] && p[2] < p[3] && p[4] > p[5] && p[8] < p[9] && p[10] > p[11] && p[11] < p[12] {
      assert LooksLike(p, 6);
    } else if p[1] > p[2] && p[3] < p[4] && p[4] > p[5] && p[9] < p[10] && p[10] > p[11] && p[11] < p[12] {
      assert LooksLike(p, 7);
    } else {
      assert LooksLike(p, 8);
    }
  }
}
