/** The FLEX frame layer: sync detection, frame collection, polarity, de-interleaving, and
    the correction of bursts through the interleaver. */
module FlexFrame {
  import opened Words
  import opened FlexBch

  const BLOCKS_PER_FRAME := 11
  const CODEWORDS_PER_BLOCK := 8
  const CODEWORDS := BLOCKS_PER_FRAME * CODEWORDS_PER_BLOCK
  const DATA_BITS := 2816
  const POST_SYNC_BITS := 110 + DATA_BITS
  const DATA_OFFSET := 104

  // ---------------------------------------------------------------- information field

  /** Reverses a 21-bit field, shifting one bit at a time from v into r. */
  method ReverseBits21(field: Bits) returns (r: Bits)
    requires |field| == 21
    ensures |r| == 21 && forall i :: 0 <= i < 21 ==> r[i] == field[20 - i]
  {
    r := [];
    var v := field;
    for k := 0 to 21
      invariant v == field[k..] && |r| == k
      invariant forall i :: 0 <= i < k ==> r[i] == field[k - 1 - i]
    {
      r := [v[0]] + r;
      v := v[1..];
    }
  }

  /** The codeword with its 21 information bits (bits 11..31) in the opposite order. */
  function ReverseInfo(w: Word): Word {
    seq(32, i requires 0 <= i < 32 => if i < 11 then w[i] else w[42 - i])
  }

  lemma ReverseInfoInvolution(w: Word)
    ensures ReverseInfo(ReverseInfo(w)) == w
  {
  }

  // ---------------------------------------------------------------- de-interleaving

  /** Where bit i of codeword k travels inside a frame: codewords of a block are sent column
      by column, most significant column first. */
  function Place(k: nat, i: nat): (p: nat)
    requires k < CODEWORDS && i < 32
    ensures p < DATA_BITS
  {
    (k / 8) * 256 + (31 - i) * 8 + k % 8
  }

  /** Codeword k as read from the data bits of a frame. */
  function Received(data: Bits, k: nat): Word
    requires |data| >= DATA_BITS && k < CODEWORDS
  {
    seq(32, i requires 0 <= i < 32 => data[Place(k, i)])
  }

  /** What the frame decoder reports for a received word. */
  function Reported(w: Word): (Word, bool) {
    var (c, ok) := Corrected(w);
    (if ok then ReverseInfo(c) else c, ok)
  }

  /** What is reported, exactly: a codeword at most two flips away, none in the parity bit, in field
      order; failing that, and refused, a word that near with its parity odd; failing that the word
      itself. */
  lemma ReportsExactly(w: Word)
    ensures forall c: Word :: IsCodeword(c) && c[0] == w[0] && Weight(Xor(w, c)) <= 2 ==>
      Reported(w) == (c[..11] + seq(21, i requires 0 <= i < 21 => c[31 - i]), true)
    ensures forall u: Word :: OddNear(w, u) ==> Reported(w) == (u, false)
    ensures (forall v: Word :: !OddNear(w, v) && !(IsCodeword(v) && v[0] == w[0] && Weight(Xor(w, v)) <= 2)) ==>
      Reported(w) == (w, false)
  {
    hide Corrected, Weight, Xor, IsCodeword, OddNear, ReverseInfo;
    forall c: Word | IsCodeword(c) && c[0] == w[0] && Weight(Xor(w, c)) <= 2
      ensures Reported(w) == (c[..11] + seq(21, i requires 0 <= i < 21 => c[31 - i]), true)
    {
      AcceptsExactly(w, c);
      ReverseIs(c);
    }
    if Corrected(w).1 {
      AcceptsExactly(w, Corrected(w).0);
      NoneOdd(w);
    } else {
      RefusedExactly(w);
    }
  }

  lemma ReverseIs(c: Word)
    ensures ReverseInfo(c) == c[..11] + seq(21, i requires 0 <= i < 21 => c[31 - i])
  {
  }

  function DataBits(frame: Bits, inverted: bool): Bits {
    var bits := if inverted then Not(frame) else frame;
    if |frame| < DATA_OFFSET then [] else bits[DATA_OFFSET..]
  }

  /** The codewords of a frame, in order. */
  function Decoded(frame: Bits, inverted: bool): seq<(Word, bool)> {
    var data := DataBits(frame, inverted);
    if |data| < DATA_BITS then []
    else seq(CODEWORDS, k requires 0 <= k < CODEWORDS => Reported(Received(data, k)))
  }

  method ReadCodeword(block: Bits, row: nat) returns (cw: Word)
    requires |block| == 256 && row < 8
    ensures forall i :: 0 <= i < 32 ==> cw[i] == block[(31 - i) * 8 + row]
  {
    cw := seq(32, _ => false);
    for col := 0 to 32
      invariant forall i :: 0 <= i < col ==> cw[i] == block[(col - 1 - i) * 8 + row]
    {
      cw := [block[col * 8 + row]] + cw[..31];
    }
  }

  function CountOk(words: seq<(Word, bool)>): nat {
    if words == [] then 0 else CountOk(words[..|words| - 1]) + (if words[|words| - 1].1 then 1 else 0)
  }

  /** The de-interleave and correct loop, with the numbers of good and bad codewords. */
  method DecodeCodewords(data: Bits) returns (words: seq<(Word, bool)>, good: nat, bad: nat)
    requires |data| >= DATA_BITS
    ensures |words| == CODEWORDS && forall k :: 0 <= k < CODEWORDS ==> words[k] == Reported(Received(data, k))
    ensures good == CountOk(words) && good + bad == CODEWORDS
  {
    hide Reported, Received;
    words, good, bad := [], 0, 0;
    for blk := 0 to BLOCKS_PER_FRAME
      invariant |words| == blk * 8 && good == CountOk(words) && good + bad == |words|
      invariant forall k :: 0 <= k < |words| ==> words[k] == Reported(Received(data, k))
    {
      var block := data[blk * 256..(blk + 1) * 256];
      for row := 0 to CODEWORDS_PER_BLOCK
        invariant |words| == blk * 8 + row && good == CountOk(words) && good + bad == |words|
        invariant forall k :: 0 <= k < |words| ==> words[k] == Reported(Received(data, k))
      {
        var cw := ReadCodeword(block, row);
        ReadIsReceived(data, blk, row, cw);
        var word := ReportCodeword(cw);
        if word.1 {
          good := good + 1;
        } else {
          bad := bad + 1;
        }
        assert (words + [word])[..|words|] == words;
        words := words + [word];
      }
    }
  }

  /** Corrects a codeword and, if it was good, puts its information bits in field order. */
  method ReportCodeword(cw: Word) returns (word: (Word, bool))
    ensures word == Reported(cw)
  {
    hide Corrected;
    var corrected, ok := BchCorrect(cw);
    if ok {
      var info := ReverseBits21(corrected[11..32]);
      corrected := corrected[..11] + info;
      assert corrected == ReverseInfo(Corrected(cw).0);
    }
    word := (corrected, ok);
  }

  lemma ReadIsReceived(data: Bits, blk: nat, row: nat, cw: Word)
    requires |data| >= DATA_BITS && blk < BLOCKS_PER_FRAME && row < 8
    requires forall i :: 0 <= i < 32 ==> cw[i] == data[blk * 256..(blk + 1) * 256][(31 - i) * 8 + row]
    ensures cw == Received(data, blk * 8 + row)
  {
    var k := blk * 8 + row;
    assert k / 8 == blk && k % 8 == row;
    forall i | 0 <= i < 32 ensures cw[i] == Received(data, k)[i] {
      assert data[blk * 256..(blk + 1) * 256][(31 - i) * 8 + row] == data[Place(k, i)];
    }
  }

  // ---------------------------------------------------------------- bursts

  /** The bits at which data differs from the interleaved codewords that were sent lie,
      block by block, in a window of the given length among the first 248 bits. */
  ghost predicate ErrorsInWindows(sent: seq<Word>, data: Bits, starts: seq<nat>, length: nat) {
    && |sent| == CODEWORDS && |data| >= DATA_BITS && |starts| == BLOCKS_PER_FRAME
    && forall k, i :: 0 <= k < CODEWORDS && 0 <= i < 32 && data[Place(k, i)] != sent[k][i] ==>
      starts[k / 8] <= Place(k, i) % 256 < starts[k / 8] + length && Place(k, i) % 256 < 248
  }

  lemma WeightOfTwo(e: Bits, a: nat, b: nat)
    requires a < |e| && b < |e| && forall i :: 0 <= i < |e| && e[i] ==> i == a || i == b
    ensures Weight(e) <= 2
  {
    WeightUpdate(e, a, false);
    WeightUpdate(e[a := false], b, false);
    WeightZero(e[a := false][b := false]);
  }

  lemma PlaceInBlock(k: nat, i: nat)
    requires k < CODEWORDS && i < 32
    ensures Place(k, i) % 256 == (31 - i) * 8 + k % 8
  {
  }

  /** A window of sixteen bits meets a codeword in at most two places, next to each other. */
  lemma WindowMeetsTwo(sent: seq<Word>, data: Bits, starts: seq<nat>, k: nat)
    requires ErrorsInWindows(sent, data, starts, 16) && k < CODEWORDS
    ensures var e := Xor(sent[k], Received(data, k)); Weight(e) <= 2 && !e[0]
  {
    hide Weight;
    var e := Xor(sent[k], Received(data, k));
    var s, row := starts[k / 8], k % 8;
    forall i | 0 <= i < 32 && e[i] ensures s <= (31 - i) * 8 + row < s + 16 && (31 - i) * 8 + row < 248 {
      PlaceInBlock(k, i);
      assert data[Place(k, i)] != sent[k][i];
    }
    if i :| 0 <= i < 32 && e[i] {
      if j :| 0 <= j < 32 && e[j] && j != i {
        assert j == i - 1 || j == i + 1;
        forall l | 0 <= l < 32 && e[l] ensures l == i || l == j {
          assert i - 1 <= l <= i + 1 && j - 1 <= l <= j + 1;
          assert (31 - l) * 8 - (31 - i) * 8 == (i - l) * 8;
          assert (31 - l) * 8 - (31 - j) * 8 == (j - l) * 8;
        }
        WeightOfTwo(e, i, j);
      } else {
        WeightOfTwo(e, i, i);
      }
    } else {
      WeightZero(e);
    }
  }

  /** Burst correction: errors confined, in each block, to sixteen consecutive bits among the
      first 248 leave every one of the 88 codewords accepted and equal to the one sent. */
  lemma BurstsCorrected(sent: seq<Word>, data: Bits, starts: seq<nat>, k: nat)
    requires ErrorsInWindows(sent, data, starts, 16) && k < CODEWORDS
    requires IsCodeword(sent[k])
    ensures Reported(Received(data, k)) == (ReverseInfo(sent[k]), true)
  {
    hide Corrected, Weight, IsCodeword;
    var r := Received(data, k);
    WindowMeetsTwo(sent, data, starts, k);
    XorSelf(sent[k], r);
    XorSelf(Xor(sent[k], r), r);
    CorrectsTwo(sent[k], Xor(sent[k], r));
  }

  lemma WeightOfThree(e: Bits, a: nat)
    requires a + 2 < |e| && forall i :: 0 <= i < |e| ==> (e[i] <==> a <= i <= a + 2)
    ensures Weight(e) == 3
  {
    WeightUpdate(e, a, false);
    WeightUpdate(e[a := false], a + 1, false);
    WeightUpdate(e[a := false][a + 1 := false], a + 2, false);
    WeightZero(e[a := false][a + 1 := false][a + 2 := false]);
  }

  /** Sixteen is the limit: seventeen consecutive flips anywhere in a block hit one codeword
      three times, and that codeword is refused. */
  lemma SeventeenRefused(sent: seq<Word>, data: Bits, blk: nat, start: nat)
    requires |sent| == CODEWORDS && |data| >= DATA_BITS && blk < BLOCKS_PER_FRAME && start + 17 <= 256
    requires forall k, i :: 0 <= k < CODEWORDS && 0 <= i < 32 && k / 8 == blk ==>
      (data[Place(k, i)] != sent[k][i] <==> start <= Place(k, i) % 256 < start + 17)
    requires IsCodeword(sent[blk * 8 + start % 8])
    ensures !Reported(Received(data, blk * 8 + start % 8)).1
  {
    hide Corrected, Weight, IsCodeword;
    var k := blk * 8 + start % 8;
    assert k / 8 == blk && k % 8 == start % 8;
    var r := Received(data, k);
    var e := Xor(sent[k], r);
    forall i | 0 <= i < 32 ensures e[i] <==> 29 - start / 8 <= i <= 31 - start / 8 {
      PlaceInBlock(k, i);
      assert data[Place(k, i)] != sent[k][i] <==> start <= Place(k, i) % 256 < start + 17;
    }
    WeightOfThree(e, 29 - start / 8);
    XorSelf(sent[k], r);
    XorSelf(Xor(sent[k], r), r);
    RejectsThree(sent[k], e);
    assert Xor(sent[k], e) == r;
  }

  // ---------------------------------------------------------------- sync and collection

  /** The sync word A and its complement. A match with A means the data bits are inverted. */
  const SYNC_A: Word := Unpack(0xA6C6AAAA, 32)
  const SYNC_NOT_A: Word := Unpack(0x59395555, 32)

  datatype Mode = Idle | Sync1

  /** The bit-level state of the receiver: shift register (bit 0 is the newest), mode,
      polarity of the last sync, and the bits collected since. */
  datatype Receiver = Receiver(shift: Word, mode: Mode, inverted: bool, frame: Bits)

  predicate Matches(shift: Word, sync: Word) {
    Weight(Xor(shift, sync)) <= 2
  }

  /** One bit: the next state, and the frame it completes, if any. */
  function Step(r: Receiver, bit: bool): (Receiver, seq<seq<(Word, bool)>>) {
    var shift: Word := [bit] + r.shift[..31];
    match r.mode
    case Idle =>
      if Matches(shift, SYNC_A) then (Receiver(shift, Sync1, true, []), [])
      else if Matches(shift, SYNC_NOT_A) then (Receiver(shift, Sync1, false, []), [])
      else (Receiver(shift, Idle, r.inverted, r.frame), [])
    case Sync1 =>
      var frame := r.frame + [bit];
      if |frame| >= POST_SYNC_BITS then
        (Receiver(shift, Idle, r.inverted, []), [Decoded(frame, r.inverted)])
      else (Receiver(shift, Sync1, r.inverted, frame), [])
  }

  function Run(r: Receiver, bits: Bits): (Receiver, seq<seq<(Word, bool)>>) {
    if bits == [] then (r, [])
    else
      var (r', done) := Run(r, bits[..|bits| - 1]);
      var (r'', more) := Step(r', bits[|bits| - 1]);
      (r'', done + more)
  }

  predicate Found(r: Receiver, bit: bool) {
    r.mode == Idle && Step(r, bit).0.mode == Sync1
  }

  /** The syncs found in a run. */
  function Syncs(r: Receiver, bits: Bits): nat {
    if bits == [] then 0
    else
      var n := |bits| - 1;
      Syncs(r, bits[..n]) + (if Found(Run(r, bits[..n]).0, bits[n]) then 1 else 0)
  }

  /** The codewords of some frames, and the good ones among them. */
  function WordsIn(frames: seq<seq<(Word, bool)>>): nat {
    if frames == [] then 0 else WordsIn(frames[..|frames| - 1]) + |frames[|frames| - 1]|
  }

  function GoodIn(frames: seq<seq<(Word, bool)>>): nat {
    if frames == [] then 0 else GoodIn(frames[..|frames| - 1]) + CountOk(frames[|frames| - 1])
  }

  lemma {:induction false} CountsAdd(a: seq<seq<(Word, bool)>>, b: seq<seq<(Word, bool)>>)
    ensures WordsIn(a + b) == WordsIn(a) + WordsIn(b) && GoodIn(a + b) == GoodIn(a) + GoodIn(b)
    decreases |b|
  {
    if b == [] {
      assert a + b == a;
    } else {
      var n := |b| - 1;
      CountsAdd(a, b[..n]);
      assert (a + b)[..|a + b| - 1] == a + b[..n];
    }
  }

  lemma OneFrame(words: seq<(Word, bool)>)
    ensures WordsIn([words]) == |words| && GoodIn([words]) == CountOk(words)
    ensures WordsIn([]) == 0 && GoodIn([]) == 0
  {
    assert [words][..0] == [];
  }

  /** Every sync leads to one frame, the last perhaps still to come; a frame holds 88 codewords. */
  lemma {:induction false} SyncsAndFrames(r: Receiver, bits: Bits)
    ensures var (r', frames) := Run(r, bits);
      && Syncs(r, bits) + (if r.mode == Sync1 then 1 else 0) == |frames| + (if r'.mode == Sync1 then 1 else 0)
      && WordsIn(frames) == CODEWORDS * |frames| && GoodIn(frames) <= WordsIn(frames)
    decreases |bits|
  {
    hide Step, Found, WordsIn, GoodIn;
    if bits == [] {
      OneFrame([]);
    } else {
      var n := |bits| - 1;
      SyncsAndFrames(r, bits[..n]);
      var (r1, done) := Run(r, bits[..n]);
      OneStep(r1, bits[n]);
      CountsAdd(done, Step(r1, bits[n]).1);
    }
  }

  lemma OneStep(r: Receiver, bit: bool)
    ensures var (r', frames) := Step(r, bit);
      && (if Found(r, bit) then 1 else 0) + (if r.mode == Sync1 then 1 else 0)
         == |frames| + (if r'.mode == Sync1 then 1 else 0)
      && WordsIn(frames) == CODEWORDS * |frames| && GoodIn(frames) <= WordsIn(frames)
  {
    hide Decoded, Matches, Unpack, WordsIn, GoodIn, CountOk;
    OneFrame([]);
    var frame := r.frame + [bit];
    OneFrame(Decoded(frame, r.inverted));
    if |frame| >= POST_SYNC_BITS {
      FrameIsWhole(frame, r.inverted);
    }
  }

  lemma FrameIsWhole(frame: Bits, inverted: bool)
    requires |frame| >= POST_SYNC_BITS
    ensures |Decoded(frame, inverted)| == CODEWORDS && CountOk(Decoded(frame, inverted)) <= CODEWORDS
  {
    hide Reported, Received;
    CountBound(Decoded(frame, inverted));
  }

  lemma {:induction false} CountBound(words: seq<(Word, bool)>)
    ensures CountOk(words) <= |words|
  {
    if words != [] {
      CountBound(words[..|words| - 1]);
    }
  }

  /** The receiver object: fields updated bit by bit. */
  class FLEXDecoder {
    var shiftReg: Word
    var inverted: bool
    var state: Mode
    var frameBits: Bits
    var syncsFound: nat
    var codewordsOk: nat
    var codewordsFail: nat

    function Abstract(): Receiver
      reads this
    {
      Receiver(shiftReg, state, inverted, frameBits)
    }

    constructor ()
      ensures Abstract() == Receiver(Unpack(0, 32), Idle, false, [])
      ensures syncsFound == codewordsOk == codewordsFail == 0
    {
      shiftReg, inverted, state, frameBits := Unpack(0, 32), false, Idle, [];
      syncsFound, codewordsOk, codewordsFail := 0, 0, 0;
    }

    /** The codewords of a collected frame; none if it is too short to hold them. */
    method DecodeFrame(frame: Bits) returns (words: seq<(Word, bool)>)
      modifies this`codewordsOk, this`codewordsFail
      ensures words == Decoded(frame, inverted)
      ensures codewordsOk == old(codewordsOk) + CountOk(words)
      ensures codewordsFail == old(codewordsFail) + |words| - CountOk(words)
    {
      hide Corrected;
      var data := DataBits(frame, inverted);
      if |data| < DATA_BITS {
        return [];
      }
      var good, bad;
      words, good, bad := DecodeCodewords(data);
      codewordsOk, codewordsFail := codewordsOk + good, codewordsFail + bad;
    }

    method ProcessBit(bit: bool) returns (frames: seq<seq<(Word, bool)>>)
      modifies this
      ensures (Abstract(), frames) == Step(old(Abstract()), bit)
      ensures syncsFound == old(syncsFound) + (if Found(old(Abstract()), bit) then 1 else 0)
      ensures codewordsOk == old(codewordsOk) + GoodIn(frames)
      ensures codewordsFail == old(codewordsFail) + WordsIn(frames) - GoodIn(frames)
    {
      hide Decoded, Matches, CountOk, WordsIn, GoodIn, Unpack;
      frames := [];
      OneFrame([]);
      shiftReg := [bit] + shiftReg[..31];
      if state == Idle {
        if Matches(shiftReg, SYNC_A) {
          inverted, syncsFound, state, frameBits := true, syncsFound + 1, Sync1, [];
        } else if Matches(shiftReg, SYNC_NOT_A) {
          inverted, syncsFound, state, frameBits := false, syncsFound + 1, Sync1, [];
        }
      } else {
        frameBits := frameBits + [bit];
        if |frameBits| >= POST_SYNC_BITS {
          var words := DecodeFrame(frameBits);
          frames := [words];
          OneFrame(words);
          state, frameBits := Idle, [];
        }
      }
    }

    method ProcessBits(bits: Bits) returns (frames: seq<seq<(Word, bool)>>)
      modifies this
      ensures (Abstract(), frames) == Run(old(Abstract()), bits)
      ensures syncsFound == old(syncsFound) + Syncs(old(Abstract()), bits)
      ensures codewordsOk == old(codewordsOk) + GoodIn(frames)
      ensures codewordsFail == old(codewordsFail) + WordsIn(frames) - GoodIn(frames)
    {
      hide Step, Found, WordsIn, GoodIn;
      frames := [];
      OneFrame([]);
      for i := 0 to |bits|
        invariant (Abstract(), frames) == Run(old(Abstract()), bits[..i])
        invariant syncsFound == old(syncsFound) + Syncs(old(Abstract()), bits[..i])
        invariant codewordsOk == old(codewordsOk) + GoodIn(frames)
        invariant codewordsFail == old(codewordsFail) + WordsIn(frames) - GoodIn(frames)
      {
        assert bits[..i + 1][..i] == bits[..i];
        var more := ProcessBit(bits[i]);
        CountsAdd(frames, more);
        frames := frames + more;
      }
      assert bits[..|bits|] == bits;
    }
  }

  // ---------------------------------------------------------------- chunks and polarity

  /** How the bits are cut into chunks is invisible. */
  lemma {:induction false} RunConcat(r: Receiver, a: Bits, b: Bits)
    ensures var (r1, f1) := Run(r, a);
      var (r2, f2) := Run(r1, b);
      Run(r, a + b) == (r2, f1 + f2)
    decreases |b|
  {
    hide Step;
    if b == [] {
      assert a + b == a;
      assert Run(r, a).1 + [] == Run(r, a).1;
    } else {
      var n := |b| - 1;
      RunConcat(r, a, b[..n]);
      assert (a + b)[..|a + b| - 1] == a + b[..n];
      var (r1, f1) := Run(r, a);
      var (r2, f2) := Run(r1, b[..n]);
      var more := Step(r2, b[n]).1;
      assert (f1 + f2) + more == f1 + (f2 + more);
    }
  }

  /** The receiver that has heard every bit the other way up. */
  function Mirror(r: Receiver): Receiver {
    Receiver(Not(r.shift), r.mode, !r.inverted, Not(r.frame))
  }

  lemma {:induction false} WeightNot(a: Bits, b: Bits)
    requires |a| == |b|
    ensures Weight(Xor(Not(a), b)) + Weight(Xor(a, b)) == |a|
    ensures Xor(Not(a), b) == Xor(a, Not(b))
  {
    if a != [] {
      var n := |a| - 1;
      WeightNot(a[..n], b[..n]);
      assert Xor(a, b)[..n] == Xor(a[..n], b[..n]);
      assert Xor(Not(a), b)[..n] == Xor(Not(a[..n]), b[..n]);
    }
  }

  lemma SyncWordsComplement()
    ensures SYNC_NOT_A == Not(SYNC_A)
  {
    hide Unpack;
    Power2Of32();
    UnpackComplement(0xA6C6AAAA, 0x59395555, 32);
  }

  lemma MirrorMatches(shift: Word)
    ensures Matches(Not(shift), SYNC_A) <==> Matches(shift, SYNC_NOT_A)
    ensures Matches(Not(shift), SYNC_NOT_A) <==> Matches(shift, SYNC_A)
    ensures !(Matches(shift, SYNC_A) && Matches(shift, SYNC_NOT_A))
  {
    SyncWordsComplement();
    WeightNot(shift, SYNC_A);
    WeightNot(shift, SYNC_NOT_A);
    assert Not(SYNC_NOT_A) == SYNC_A;
  }

  lemma MirrorDecoded(frame: Bits, inverted: bool)
    ensures Decoded(Not(frame), !inverted) == Decoded(frame, inverted)
  {
    hide Reported;
    assert Not(Not(frame)) == frame;
    assert DataBits(Not(frame), !inverted) == DataBits(frame, inverted);
  }

  lemma MirrorStep(r: Receiver, bit: bool)
    ensures Step(Mirror(r), !bit) == (Mirror(Step(r, bit).0), Step(r, bit).1)
  {
    hide Decoded, Matches, Unpack;
    var shift: Word := [bit] + r.shift[..31];
    assert Not(shift) == [!bit] + Not(r.shift)[..31];
    MirrorMatches(shift);
    assert Not(r.frame + [bit]) == Not(r.frame) + [!bit];
    MirrorDecoded(r.frame + [bit], r.inverted);
  }

  /** Polarity: a stream received upside down gives the same codewords. */
  lemma {:induction false} MirrorRun(r: Receiver, bits: Bits)
    ensures Run(Mirror(r), Not(bits)) == (Mirror(Run(r, bits).0), Run(r, bits).1)
    decreases |bits|
  {
    hide Step;
    if bits != [] {
      var n := |bits| - 1;
      MirrorRun(r, bits[..n]);
      assert Not(bits)[..n] == Not(bits[..n]);
      MirrorStep(Run(r, bits[..n]).0, bits[n]);
    }
  }

  // ---------------------------------------------------------------- a whole frame

  lemma {:induction false} Collecting(r: Receiver, bits: Bits)
    requires r.mode == Sync1 && |r.frame| + |bits| < POST_SYNC_BITS
    ensures var (r', frames) := Run(r, bits);
      frames == [] && r'.mode == Sync1 && r'.inverted == r.inverted && r'.frame == r.frame + bits
    decreases |bits|
  {
    hide Decoded;
    if bits == [] {
      assert r.frame + bits == r.frame;
    } else {
      var n := |bits| - 1;
      Collecting(r, bits[..n]);
      assert r.frame + bits == r.frame + bits[..n] + [bits[n]];
    }
  }

  /** After a sync, exactly the next 2926 bits make the frame, which is decoded once. */
  lemma FrameAfterSync(r: Receiver, bits: Bits)
    requires r.mode == Sync1 && r.frame == [] && |bits| == POST_SYNC_BITS
    ensures var (r', frames) := Run(r, bits);
      frames == [Decoded(bits, r.inverted)] && r'.mode == Idle && r'.frame == []
  {
    hide Decoded;
    var n := |bits| - 1;
    Collecting(r, bits[..n]);
    assert [] + bits[..n] + [bits[n]] == bits;
  }

  /** What is reported when every codeword arrives intact. */
  function AllGood(sent: seq<Word>): seq<(Word, bool)>
    requires |sent| == CODEWORDS
  {
    seq(CODEWORDS, k requires 0 <= k < CODEWORDS => (ReverseInfo(sent[k]), true))
  }

  /** End to end: whatever the polarity of the sync word, a frame whose data bits carry 88
      interleaved codewords with at most one sixteen-bit burst per block is reported as
      exactly those codewords, every one good. */
  lemma FrameDelivered(r: Receiver, frame: Bits, sent: seq<Word>, starts: seq<nat>)
    requires r.mode == Sync1 && r.frame == [] && |frame| == POST_SYNC_BITS
    requires ErrorsInWindows(sent, DataBits(frame, r.inverted), starts, 16)
    requires forall k :: 0 <= k < CODEWORDS ==> IsCodeword(sent[k])
    ensures Run(r, frame).1 == [AllGood(sent)]
  {
    hide Run, Reported, IsCodeword;
    FrameAfterSync(r, frame);
    var data := DataBits(frame, r.inverted);
    forall k | 0 <= k < CODEWORDS ensures Reported(Received(data, k)) == (ReverseInfo(sent[k]), true) {
      BurstsCorrected(sent, data, starts, k);
    }
    assert Decoded(frame, r.inverted) == AllGood(sent);
  }

  function Shifted(r: Receiver, bit: bool): Word {
    [bit] + r.shift[..31]
  }

  /** A sync word of either polarity, with at most two errors; the first kind means that the
      data are inverted. */
  predicate FindsSync(shift: Word) {
    FindsInverted(shift) || Matches(shift, SYNC_NOT_A)
  }

  predicate FindsInverted(shift: Word) {
    Matches(shift, SYNC_A)
  }

  lemma SyncStep(r: Receiver, bit: bool)
    requires r.mode == Idle && FindsSync(Shifted(r, bit))
    ensures Run(r, [bit]) == (Receiver(Shifted(r, bit), Sync1, FindsInverted(Shifted(r, bit)), []), [])
  {
    hide Matches, Unpack;
    MirrorMatches(Shifted(r, bit));
    assert [bit][..0] == [];
    assert Run(r, [bit][..0]) == (r, []);
    var (r', frames) := Step(r, bit);
    assert (r', frames) == (Receiver(Shifted(r, bit), Sync1, FindsInverted(Shifted(r, bit)), []), []);
    assert Run(r, [bit]) == (r', [] + frames);
    assert [] + frames == [];
  }

  /** From the search on: a bit that completes a sync word and the frame that follows it deliver
      the 88 codewords that were sent. */
  lemma SyncedFrameDelivered(r: Receiver, bit: bool, frame: Bits, sent: seq<Word>, starts: seq<nat>)
    requires r.mode == Idle && |frame| == POST_SYNC_BITS && FindsSync(Shifted(r, bit))
    requires ErrorsInWindows(sent, DataBits(frame, FindsInverted(Shifted(r, bit))), starts, 16)
    requires forall k :: 0 <= k < CODEWORDS ==> IsCodeword(sent[k])
    ensures Run(r, [bit] + frame).1 == [AllGood(sent)]
  {
    hide FindsSync, FindsInverted, Step, Run, IsCodeword, DataBits;
    SyncStep(r, bit);
    RunConcat(r, [bit], frame);
    var (r1, none) := Run(r, [bit]);
    var (r2, frames) := Run(r1, frame);
    assert none == [];
    assert Run(r, [bit] + frame) == (r2, none + frames);
    FrameDelivered(r1, frame, sent, starts);
    assert frames == [AllGood(sent)];
    assert [] + frames == frames;
  }
}
