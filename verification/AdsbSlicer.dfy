/** The ADS-B bit slicer. A bit lasts 12/5 samples; the slicer walks the magnitudes with a table
    compiled from that ratio. */
module AdsbSlicer {
  import opened Words
  import opened Crc24

  // ---------------------------------------------------------------- the slicer tables

  const PHASE_BITS: seq<seq<(nat, nat)>> := [
    [(0, 0), (2, 2), (4, 4), (1, 7), (3, 9), (0, 12), (2, 14), (4, 16)],
    [(1, 0), (3, 2), (0, 5), (2, 7), (4, 9), (1, 12), (3, 14), (0, 17)],
    [(2, 0), (4, 2), (1, 5), (3, 7), (0, 10), (2, 12), (4, 14), (1, 17)],
    [(3, 0), (0, 3), (2, 5), (4, 7), (1, 10), (3, 12), (0, 15), (2, 17)],
    [(4, 0), (1, 3), (3, 5), (0, 8), (2, 10), (4, 12), (1, 15), (3, 17)]
  ]
  const PHASE_NEXT: seq<nat> := [1, 2, 3, 4, 0]
  const PHASE_ADVANCE: seq<nat> := [19, 19, 19, 19, 20]

  /** The table is twelve fifths of a sample per bit, and ninety-six fifths per byte. */
  lemma TableIsTwelveFifths(phase: nat, bit: nat)
    requires phase < 5 && bit < 8
    ensures |PHASE_BITS| == |PHASE_NEXT| == |PHASE_ADVANCE| == 5 && |PHASE_BITS[phase]| == 8
    ensures PHASE_BITS[phase][bit] == ((phase + 12 * bit) % 5, (phase + 12 * bit) / 5)
    ensures PHASE_NEXT[phase] == (phase + 96) % 5 && PHASE_ADVANCE[phase] == (phase + 96) / 5
  {
  }

  /** How far a slice of that phase looks ahead. */
  function Ahead(sp: nat): nat {
    if sp <= 3 then 2 else 3
  }

  /** Correlation at sample p for slice phase sp. */
  function Slice(m: seq<int>, p: nat, sp: nat): int
    requires p + Ahead(sp) < |m|
  {
    if sp == 0 then 5 * m[p] - 3 * m[p + 1] - 2 * m[p + 2]
    else if sp == 1 then 4 * m[p] - m[p + 1] - 3 * m[p + 2]
    else if sp == 2 then 3 * m[p] + m[p + 1] - 4 * m[p + 2]
    else if sp == 3 then 2 * m[p] + 3 * m[p + 1] - 5 * m[p + 2]
    else m[p] + 5 * m[p + 1] - 5 * m[p + 2] - m[p + 3]
  }

  /** Plus one in the first half of a bit, minus one in the second. */
  function Template(fifth: nat): int {
    if fifth < 6 then 1 else -1
  }

  /** A fifth of a sample against the template. */
  function Part(m: seq<int>, p: nat, sp: nat, fifth: nat): int
    requires p + (sp + fifth) / 5 < |m|
  {
    if Template(fifth) == 1 then m[p + (sp + fifth) / 5] else -m[p + (sp + fifth) / 5]
  }

  /** The twelve fifths of a sample from sp fifths into sample p on, against the template. */
  function Correlation(m: seq<int>, p: nat, sp: nat): int
    requires p + (sp + 11) / 5 < |m|
  {
    Part(m, p, sp, 0) + Part(m, p, sp, 1) + Part(m, p, sp, 2) + Part(m, p, sp, 3) + Part(m, p, sp, 4)
    + Part(m, p, sp, 5) + Part(m, p, sp, 6) + Part(m, p, sp, 7) + Part(m, p, sp, 8) + Part(m, p, sp, 9)
    + Part(m, p, sp, 10) + Part(m, p, sp, 11)
  }

  /** A slice is the correlation of the twelve fifths of a bit with the pulse of a one. */
  lemma SliceCorrelates(m: seq<int>, p: nat, sp: nat)
    requires sp < 5 && p + Ahead(sp) < |m|
    ensures p + (sp + 11) / 5 < |m| && Slice(m, p, sp) == Correlation(m, p, sp)
  {
    hide Correlation, Slice;
    match sp
    case 0 => Correlates0(m, p);
    case 1 => Correlates1(m, p);
    case 2 => Correlates2(m, p);
    case 3 => Correlates3(m, p);
    case _ => Correlates4(m, p);
  }

  lemma Correlates0(m: seq<int>, p: nat)
    requires p + 2 < |m|
    ensures Slice(m, p, 0) == Correlation(m, p, 0)
  {
  }

  lemma Correlates1(m: seq<int>, p: nat)
    requires p + 2 < |m|
    ensures Slice(m, p, 1) == Correlation(m, p, 1)
  {
  }

  lemma Correlates2(m: seq<int>, p: nat)
    requires p + 2 < |m|
    ensures Slice(m, p, 2) == Correlation(m, p, 2)
  {
  }

  lemma Correlates3(m: seq<int>, p: nat)
    requires p + 2 < |m|
    ensures Slice(m, p, 3) == Correlation(m, p, 3)
  {
  }

  lemma Correlates4(m: seq<int>, p: nat)
    requires p + 3 < |m|
    ensures Slice(m, p, 4) == Correlation(m, p, 4)
  {
  }

  // ---------------------------------------------------------------- extraction

  /** The last sample read for a bit that begins a number of fifths of a sample from the start. */
  function Reach(fifths: nat): nat {
    fifths / 5 + Ahead(fifths % 5)
  }

  /** Bit k of a message whose data start at a sample, for a given phase. */
  function MessageBit(mag: seq<int>, start: nat, phase: nat, k: nat): bool
    requires start + Reach(phase + 12 * k) < |mag|
  {
    Slice(mag, start + (phase + 12 * k) / 5, (phase + 12 * k) % 5) > 0
  }

  /** The last sample the slicer looks at for n bytes is inside the array. */
  predicate InBounds(mag: seq<int>, start: nat, phase: nat, n: nat) {
    n == 0 || start + Reach(phase + 96 * n - 12) < |mag|
  }

  /** The last bit reaches furthest. */
  lemma BitInBounds(mag: seq<int>, start: nat, phase: nat, n: nat, k: nat)
    requires InBounds(mag, start, phase, n) && k < 8 * n
    ensures start + Reach(phase + 12 * k) < |mag|
  {
  }

  function MessageByte(mag: seq<int>, start: nat, phase: nat, n: nat, i: nat): Byte
    requires InBounds(mag, start, phase, n) && i < n
  {
    seq(8, w requires 0 <= w < 8 => BitInBounds(mag, start, phase, n, 8 * i + 7 - w);
                                    MessageBit(mag, start, phase, 8 * i + 7 - w))
  }

  /** Bit number bit of a byte that starts at sample ptr with a phase below five. */
  function SlicedBit(mag: seq<int>, ptr: nat, phase: nat, bit: nat): bool
    requires ptr + Reach(phase + 12 * bit) < |mag|
  {
    Slice(mag, ptr + (phase + 12 * bit) / 5, (phase + 12 * bit) % 5) > 0
  }

  /** The n bytes found at a place and phase, most significant bit first. */
  function Extracted(mag: seq<int>, start: nat, phase: nat, n: nat): (r: seq<Byte>)
    requires InBounds(mag, start, phase, n)
    ensures |r| == n
  {
    seq(n, i requires 0 <= i < n => MessageByte(mag, start, phase, n, i))
  }

  lemma BitsReach(phase: nat, bit: nat)
    requires bit < 8
    ensures Reach(phase + 12 * bit) <= Reach(phase + 84)
  {
  }

  predicate IsSliced(mag: seq<int>, ptr: nat, phase: nat, bit: nat, high: bool) {
    ptr + Reach(phase + 12 * bit) < |mag| && high == SlicedBit(mag, ptr, phase, bit)
  }

  /** One bit of a byte, as the table says. */
  method ExtractBit(mag: seq<int>, ptr: nat, phase: nat, bit: nat) returns (high: bool)
    requires phase < 5 && bit < 8 && ptr + Reach(phase + 12 * bit) < |mag|
    ensures IsSliced(mag, ptr, phase, bit, high)
  {
    hide Slice, PHASE_BITS;
    TableIsTwelveFifths(phase, bit);
    var (sp, off) := PHASE_BITS[phase][bit];
    high := Slice(mag, ptr + off, sp) > 0;
  }

  /** One byte from the table, eight table entries from ptr on. */
  method ExtractByte(mag: seq<int>, ptr: nat, phase: nat) returns (b: Byte)
    requires phase < 5 && ptr + Reach(phase + 84) < |mag|
    ensures forall w :: 0 <= w < 8 ==> IsSliced(mag, ptr, phase, 7 - w, b[w])
  {
    hide IsSliced, Reach;
    b := seq(8, _ => false);
    for bit := 0 to 8
      invariant forall w :: 8 - bit <= w < 8 ==> IsSliced(mag, ptr, phase, 7 - w, b[w])
      invariant forall w :: 0 <= w < 8 - bit ==> !b[w]
    {
      BitsReach(phase, bit);
      var high := ExtractBit(mag, ptr, phase, bit);
      if high {
        b := b[7 - bit := true];
      }
    }
  }

  method ExtractMsg(mag: seq<int>, dataStart: nat, tryPhase: nat, nBytes: nat) returns (result: seq<Byte>)
    requires InBounds(mag, dataStart, tryPhase, nBytes)
    ensures result == Extracted(mag, dataStart, tryPhase, nBytes)
  {
    hide Slice, PHASE_BITS, MessageByte;
    var ptr: nat, phase: nat := dataStart + tryPhase / 5, tryPhase % 5;
    result := [];
    for i := 0 to nBytes
      invariant phase < 5 && 5 * ptr + phase == 5 * dataStart + tryPhase + 96 * i
      invariant |result| == i && forall k :: 0 <= k < i ==>
        result[k] == MessageByte(mag, dataStart, tryPhase, nBytes, k)
    {
      SamePlace(dataStart, tryPhase, i, ptr, phase, 7);
      BitInBounds(mag, dataStart, tryPhase, nBytes, 8 * i + 7);
      var b := ExtractByte(mag, ptr, phase);
      ByteIs(mag, dataStart, tryPhase, nBytes, i, ptr, phase, b);
      result := result + [b];
      TableIsTwelveFifths(phase, 0);
      ptr := ptr + PHASE_ADVANCE[phase];
      phase := PHASE_NEXT[phase];
    }
  }

  lemma ByteIs(mag: seq<int>, start: nat, tryPhase: nat, n: nat, i: nat, ptr: nat, phase: nat, b: Byte)
    requires n >= 1 && InBounds(mag, start, tryPhase, n) && i < n
    requires phase < 5 && 5 * ptr + phase == 5 * start + tryPhase + 96 * i
    requires forall w :: 0 <= w < 8 ==> IsSliced(mag, ptr, phase, 7 - w, b[w])
    ensures b == MessageByte(mag, start, tryPhase, n, i)
  {
    hide Slice, Reach;
    forall w | 0 <= w < 8 ensures b[w] == MessageByte(mag, start, tryPhase, n, i)[w] {
      var k := 8 * i + 7 - w;
      SamePlace(start, tryPhase, i, ptr, phase, 7 - w);
      BitInBounds(mag, start, tryPhase, n, k);
      assert MessageByte(mag, start, tryPhase, n, i)[w] == MessageBit(mag, start, tryPhase, k);
    }
  }

  lemma SamePlace(start: nat, tryPhase: nat, i: nat, ptr: nat, phase: nat, bit: nat)
    requires 5 * ptr + phase == 5 * start + tryPhase + 96 * i
    ensures ptr + (phase + 12 * bit) / 5 == start + (tryPhase + 12 * (8 * i + bit)) / 5
    ensures (phase + 12 * bit) % 5 == (tryPhase + 12 * (8 * i + bit)) % 5
  {
  }

  // ---------------------------------------------------------------- candidates

  predicate Edges(mag: seq<int>, j: nat)
    requires j + 13 < |mag|
  {
    mag[j] < mag[j + 1] && mag[j + 12] > mag[j + 13]
  }

  /** The places before n with both edges, in order. */
  function PlacesBelow(mag: seq<int>, n: nat): (places: seq<nat>)
    requires n + 13 <= |mag| || n == 0
    ensures forall j: nat :: j in places <==> j < n && Edges(mag, j)
    ensures forall a, b :: 0 <= a < b < |places| ==> places[a] < places[b]
  {
    if n == 0 then []
    else if Edges(mag, n - 1) then
      var before := PlacesBelow(mag, n - 1);
      assert forall a :: 0 <= a < |before| ==> before[a] in before;
      before + [n - 1]
    else PlacesBelow(mag, n - 1)
  }

  /** All of them that are far enough from the end for a long message at any phase. */
  function Places(mag: seq<int>): seq<nat> {
    PlacesBelow(mag, if |mag| > 290 then |mag| - 290 else 0)
  }

  /** Every place with a rising edge and, twelve samples on, a falling one; in order, and far
      enough from the end for a long message at any phase. */
  method FindPreambleCandidates(mag: seq<int>) returns (found: seq<nat>)
    ensures found == Places(mag)
    ensures forall j :: j in found ==> j + 290 < |mag|
    ensures forall j: nat :: j + 290 < |mag| ==> (j in found <==> mag[j] < mag[j + 1] && mag[j + 12] > mag[j + 13])
    ensures forall a, b :: 0 <= a < b < |found| ==> found[a] < found[b]
  {
    found := [];
    var n := |mag| - 290;
    if n <= 0 {
      return;
    }
    for j := 0 to n
      invariant found == PlacesBelow(mag, j)
    {
      if Edges(mag, j) {
        found := found + [j];
      }
    }
  }

  /** No candidate makes the slicer read past the array: it reads at most the 290 samples from the
      candidate on, and for a long message at phases 7 and 8 the last of them is read. */
  lemma CandidatesInBounds(mag: seq<int>, j: nat, phase: nat, n: nat)
    requires j + 290 < |mag| && phase <= 8 && n <= 14
    ensures InBounds(mag, j + 19, phase, n)
    ensures n == 14 && phase >= 7 ==> 19 + Reach(phase + 96 * n - 12) == 289
  {
  }
}
