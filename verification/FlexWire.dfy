/** FLEX from the wire: what the receiver makes of the bits that are sent, said of the bits alone. */
module FlexWire {
  import opened Words
  import opened FlexBch
  import opened FlexFrame

  // ---------------------------------------------------------------- words in time

  /** In how many places two strings differ. */
  function Differences(a: Bits, b: Bits): (n: nat)
    requires |a| == |b|
  {
    if a == [] then 0
    else Differences(a[..|a| - 1], b[..|b| - 1]) + (if a[|a| - 1] != b[|b| - 1] then 1 else 0)
  }

  /** The ones of 0x59395555, 0101 1001 0011 1001 and so on, sent most significant bit first. */
  predicate SyncOne(t: nat) {
    t == 1 || t == 3 || t == 4 || t == 7 || t == 10 || t == 11 || t == 12 || (t >= 15 && t % 2 == 1)
  }

  /** That sync word as it is sent, and the one that says that all bits are upside down. */
  function SyncSent(upsideDown: bool): (bits: Bits)
    ensures |bits| == 32
  {
    seq(32, t requires 0 <= t => SyncOne(t) != upsideDown)
  }

  function Backwards(a: Bits): (r: Bits)
    ensures |r| == |a| && forall i :: 0 <= i < |r| ==> r[i] == a[|a| - 1 - i]
  {
    seq(|a|, i requires 0 <= i < |a| => a[|a| - 1 - i])
  }

  lemma {:induction false} BackwardsDiffer(a: Bits, b: Bits)
    requires |a| == |b|
    ensures Differences(Backwards(a), Backwards(b)) == Weight(Xor(a, b))
  {
    hide Xor;
    if a != [] {
      var x, y := a[1..], b[1..];
      BackwardsDiffer(x, y);
      XorCons(a, b);
      WeightCons(a[0] != b[0], Xor(x, y));
      BackwardsSplit(a);
      BackwardsSplit(b);
      DiffersSnoc(Backwards(x), a[0], Backwards(y), b[0]);
    }
  }

  lemma XorCons(a: Bits, b: Bits)
    requires |a| == |b| > 0
    ensures Xor(a, b) == [a[0] != b[0]] + Xor(a[1..], b[1..])
  {
  }

  lemma BackwardsSplit(a: Bits)
    requires a != []
    ensures Backwards(a) == Backwards(a[1..]) + [a[0]]
  {
  }

  lemma DiffersSnoc(a: Bits, p: bool, b: Bits, q: bool)
    requires |a| == |b|
    ensures Differences(a + [p], b + [q]) == Differences(a, b) + (if p != q then 1 else 0)
  {
    assert (a + [p])[..|a|] == a && (b + [q])[..|b|] == b;
  }

  // ---------------------------------------------------------------- the sync words

  lemma SyncBits()
    ensures Backwards(SYNC_NOT_A) == SyncSent(false) && Backwards(SYNC_A) == SyncSent(true)
  {
    hide Unpack, SyncSent;
    PlainSync();
    SyncWordsComplement();
    UpsideDown();
    assert Backwards(Not(SYNC_NOT_A)) == Not(Backwards(SYNC_NOT_A));
    assert SYNC_A == Not(SYNC_NOT_A);
  }

  lemma PlainSync()
    ensures Backwards(Unpack(0x59395555, 32)) == SyncSent(false)
  {
    hide Unpack, SyncOne;
    forall i | 0 <= i < 32 ensures Backwards(Unpack(0x59395555, 32))[i] == SyncSent(false)[i] {
      SyncBytes(31 - i);
      SyncByte(31 - i);
    }
  }

  /** Bit i of the sync word, in its byte. */
  function InByte(i: nat): bool {
    if i < 16 then Unpack(0x55, 8)[i % 8] else if i < 24 then Unpack(0x39, 8)[i % 8] else Unpack(0x59, 8)[i % 8]
  }

  lemma SyncBytes(i: nat)
    requires i < 32
    ensures Unpack(0x59395555, 32)[i] == InByte(i)
  {
    hide Unpack;
    LowByte(0x593955, 0x55, 24, i);
    if i >= 8 {
      LowByte(0x5939, 0x55, 16, i - 8);
    }
    if i >= 16 {
      LowByte(0x59, 0x39, 8, i - 16);
    }
  }

  lemma LowByte(high: nat, low: nat, n: nat, i: nat)
    requires low < 256 && i < n + 8
    ensures Unpack(256 * high + low, n + 8)[i] == if i < 8 then Unpack(low, 8)[i] else Unpack(high, n)[i - 8]
  {
    hide Unpack, Nibble;
    FourBits(high, low / 16, n);
    FourBits(16 * high + low / 16, low % 16, n + 4);
    FourBits(0, low / 16, 0);
    FourBits(low / 16, low % 16, 4);
    assert 16 * (16 * high + low / 16) + low % 16 == 256 * high + low;
  }

  lemma SyncByte(i: nat)
    requires i < 32
    ensures InByte(i) == SyncOne(31 - i)
  {
    hide Unpack;
    EightBits(0x5, 0x5);
    EightBits(0x3, 0x9);
    EightBits(0x5, 0x9);
  }

  lemma EightBits(high: nat, low: nat)
    requires high < 16 && low < 16
    ensures Unpack(16 * high + low, 8) == Nibble(low) + Nibble(high)
  {
    hide Unpack, Nibble;
    FourBits(high, low, 4);
    FourBits(0, high, 0);
    assert Nibble(high) + Unpack(0, 0) == Nibble(high);
  }

  lemma UpsideDown()
    ensures SyncSent(true) == Not(SyncSent(false))
  {
  }

  // ---------------------------------------------------------------- searching

  /** The last 32 bits heard are those in the register, newest last. */
  ghost predicate HeardLast(r: Receiver, past: Bits) {
    |past| == 32 && past == Backwards(r.shift)
  }

  /** The 32 bits that end after n more. */
  function WindowAt(past: Bits, bits: Bits, n: nat): Bits
    requires |past| == 32 && n <= |bits|
  {
    (past + bits)[n..n + 32]
  }

  /** 32 bits at most two away from a sync word. */
  predicate NearSync(window: Bits, upsideDown: bool)
    requires |window| == 32
  {
    Differences(window, SyncSent(upsideDown)) <= 2
  }

  lemma MatchesNear(shift: Word)
    ensures Matches(shift, SYNC_A) <==> NearSync(Backwards(shift), true)
    ensures Matches(shift, SYNC_NOT_A) <==> NearSync(Backwards(shift), false)
  {
    hide Unpack, SyncSent, Differences;
    SyncBits();
    BackwardsDiffer(shift, SYNC_A);
    BackwardsDiffer(shift, SYNC_NOT_A);
  }

  lemma ShiftHeard(shift: Word, bit: bool)
    ensures Backwards([bit] + shift[..31]) == Backwards(shift)[1..] + [bit]
  {
  }

  /** No 32 bits heard come near either sync word, from after the first new bit to after the n-th. */
  ghost predicate NoSync(past: Bits, bits: Bits, n: nat)
    requires |past| == 32 && n <= |bits|
  {
    forall m, upsideDown :: 0 < m <= n ==> !NearSync(WindowAt(past, bits, m), upsideDown)
  }

  lemma WindowStep(past: Bits, bits: Bits, n: nat)
    requires |past| == 32 && n < |bits|
    ensures WindowAt(past, bits, n + 1) == WindowAt(past, bits, n)[1..] + [bits[n]]
    ensures WindowAt(past, bits[..n], n) == WindowAt(past, bits, n)
  {
  }

  /** Three or more errors against both sync words, everywhere, start no frame. */
  lemma {:induction false} NoFrame(r: Receiver, past: Bits, bits: Bits)
    requires r.mode == Idle && HeardLast(r, past) && NoSync(past, bits, |bits|)
    ensures var (r', frames) := Run(r, bits);
      frames == [] && r'.mode == Idle && HeardLast(r', WindowAt(past, bits, |bits|))
    decreases |bits|
  {
    hide Matches, NearSync, Unpack, Step;
    if bits == [] {
      assert WindowAt(past, bits, 0) == past;
    } else {
      var n := |bits| - 1;
      forall m, upsideDown | 0 < m <= n ensures !NearSync(WindowAt(past, bits[..n], m), upsideDown) {
        assert WindowAt(past, bits[..n], m) == WindowAt(past, bits, m);
      }
      NoFrame(r, past, bits[..n]);
      WindowStep(past, bits, n);
      IdleStep(Run(r, bits[..n]).0, WindowAt(past, bits, n), bits[n]);
    }
  }

  lemma IdleStep(r: Receiver, past: Bits, bit: bool)
    requires r.mode == Idle && HeardLast(r, past)
    requires !NearSync(past[1..] + [bit], true) && !NearSync(past[1..] + [bit], false)
    ensures var (r', frames) := Step(r, bit);
      frames == [] && r'.mode == Idle && HeardLast(r', past[1..] + [bit])
  {
    hide Matches, NearSync, Unpack;
    var shift: Word := [bit] + r.shift[..31];
    ShiftHeard(r.shift, bit);
    MatchesNear(shift);
  }

  // ---------------------------------------------------------------- a frame

  /** 2816 data bits that carry 88 words, eight to a block of 256, column by column, most significant
      column first; upside down if the sync word says so; with errors only inside one window of
      sixteen bits a block, among its first 248. */
  ghost predicate Carries(data: Bits, sent: seq<Word>, starts: seq<nat>, upsideDown: bool) {
    && |data| == 2816 && |sent| == 88 && |starts| == 11
    && (forall b :: 0 <= b < 11 ==> starts[b] + 16 <= 248)
    && forall k, i :: 0 <= k < 88 && 0 <= i < 32 ==> Arrives(data, sent[k][i] != upsideDown, k, i, starts)
  }

  predicate Arrives(data: Bits, bit: bool, k: nat, i: nat, starts: seq<nat>)
    requires |data| == 2816 && |starts| == 11 && k < 88 && i < 32
  {
    var at := (31 - i) * 8 + k % 8;
    data[(k / 8) * 256 + at] == bit || starts[k / 8] <= at < starts[k / 8] + 16
  }

  /** The 88 words, each with its 21 information bits in field order, all good. */
  ghost predicate Delivers(frame: seq<(Word, bool)>, sent: seq<Word>) {
    && |frame| == |sent| == 88
    && forall k :: 0 <= k < 88 ==> frame[k].1 && InFieldOrder(frame[k].0, sent[k])
  }

  predicate InFieldOrder(w: Word, sent: Word) {
    && (forall i :: 0 <= i < 11 ==> w[i] == sent[i])
    && (forall i :: 11 <= i < 32 ==> w[i] == sent[42 - i])
  }

  lemma CarriesErrors(gap: Bits, data: Bits, tail: Bits, sent: seq<Word>, starts: seq<nat>, upsideDown: bool)
    requires |gap| == 104 && |tail| == 6 && Carries(data, sent, starts, upsideDown)
    ensures ErrorsInWindows(sent, DataBits(gap + data + tail, upsideDown), starts, 16)
  {
    var frame := gap + data + tail;
    var seen := DataBits(frame, upsideDown);
    forall k, i | 0 <= k < CODEWORDS && 0 <= i < 32 && seen[Place(k, i)] != sent[k][i]
      ensures starts[k / 8] <= Place(k, i) % 256 < starts[k / 8] + 16 && Place(k, i) % 256 < 248
    {
      PlaceInBlock(k, i);
      assert seen[Place(k, i)] == (data[Place(k, i)] != upsideDown);
      assert Arrives(data, sent[k][i] != upsideDown, k, i, starts);
    }
  }

  lemma AllGoodDelivers(sent: seq<Word>)
    requires |sent| == 88
    ensures Delivers(AllGood(sent), sent)
  {
  }

  lemma SyncHeard(r: Receiver, past: Bits, bit: bool, upsideDown: bool)
    requires r.mode == Idle && HeardLast(r, past) && NearSync(past[1..] + [bit], upsideDown)
    ensures var (r', frames) := Step(r, bit);
      frames == [] && r'.mode == Sync1 && r'.frame == [] && r'.inverted == upsideDown
  {
    hide NearSync, Unpack, Matches;
    var shift: Word := [bit] + r.shift[..31];
    ShiftHeard(r.shift, bit);
    MatchesNear(shift);
    MirrorMatches(shift);
  }

  /** From the wire: a receiver that is searching hears 32 bits at most two away from a sync word, with
      nothing near one before they are complete; then 104 bits of anything, the data bits of 88
      codewords with at most one burst of sixteen errors a block, and six more. It reports exactly
      the words sent, whichever way up they came. */
  lemma WireDelivered(r: Receiver, past: Bits, sync: Bits, gap: Bits, data: Bits, tail: Bits,
                      sent: seq<Word>, starts: seq<nat>, upsideDown: bool)
    requires r.mode == Idle && HeardLast(r, past) && |sync| == 32
    requires NearSync(sync, upsideDown) && NoSync(past, sync, 31)
    requires |gap| == 104 && |tail| == 6 && Carries(data, sent, starts, upsideDown)
    requires forall k :: 0 <= k < 88 ==> IsCodeword(sent[k])
    ensures var (r', frames) := Run(r, sync + gap + data + tail);
      r'.mode == Idle && |frames| == 1 && Delivers(frames[0], sent)
  {
    hide NearSync, NoSync, Run, Step, Carries, Delivers, IsCodeword, Unpack, HeardLast, Matches, Decoded;
    var frame := gap + data + tail;
    SyncFound(r, past, sync, upsideDown);
    FrameReported(Run(r, sync).0, gap, data, tail, sent, starts, upsideDown);
    RunAfter(r, sync, frame);
    assert sync + frame == sync + gap + data + tail;
  }

  lemma RunAfter(r: Receiver, a: Bits, b: Bits)
    requires Run(r, a).1 == []
    ensures Run(r, a + b) == Run(Run(r, a).0, b)
  {
    hide Run;
    RunConcat(r, a, b);
    assert [] + Run(Run(r, a).0, b).1 == Run(Run(r, a).0, b).1;
  }

  lemma SyncFound(r: Receiver, past: Bits, sync: Bits, upsideDown: bool)
    requires r.mode == Idle && HeardLast(r, past) && |sync| == 32
    requires NearSync(sync, upsideDown) && NoSync(past, sync, 31)
    ensures var (r', frames) := Run(r, sync);
      frames == [] && r'.mode == Sync1 && r'.frame == [] && r'.inverted == upsideDown
  {
    hide Matches, NearSync, Unpack, Step, Run;
    var early := sync[..31];
    NoSyncEarly(past, sync);
    NoFrame(r, past, early);
    var r1 := Run(r, early).0;
    assert WindowAt(past, early, 31)[1..] + [sync[31]] == sync;
    SyncHeard(r1, WindowAt(past, early, 31), sync[31], upsideDown);
    RunOne(r1, sync[31]);
    RunConcat(r, early, [sync[31]]);
    assert early + [sync[31]] == sync;
  }

  lemma FrameReported(r: Receiver, gap: Bits, data: Bits, tail: Bits, sent: seq<Word>, starts: seq<nat>,
                      upsideDown: bool)
    requires r.mode == Sync1 && r.frame == [] && r.inverted == upsideDown
    requires |gap| == 104 && |tail| == 6 && Carries(data, sent, starts, upsideDown)
    requires forall k :: 0 <= k < 88 ==> IsCodeword(sent[k])
    ensures var (r', frames) := Run(r, gap + data + tail);
      r'.mode == Idle && |frames| == 1 && Delivers(frames[0], sent)
  {
    hide Step, Run, IsCodeword, Carries, ErrorsInWindows, DataBits, Delivers, AllGood, Decoded;
    var frame := gap + data + tail;
    CarriesShape(data, sent, starts, upsideDown);
    CarriesErrors(gap, data, tail, sent, starts, upsideDown);
    FrameDelivered(r, frame, sent, starts);
    FrameAfterSync(r, frame);
    AllGoodDelivers(sent);
  }

  lemma CarriesShape(data: Bits, sent: seq<Word>, starts: seq<nat>, upsideDown: bool)
    requires Carries(data, sent, starts, upsideDown)
    ensures |data| == 2816 && |sent| == 88
  {
  }

  lemma NoSyncEarly(past: Bits, sync: Bits)
    requires |past| == 32 && |sync| == 32 && NoSync(past, sync, 31)
    ensures NoSync(past, sync[..31], 31)
  {
    hide NearSync;
    forall m, upsideDown | 0 < m <= 31 ensures !NearSync(WindowAt(past, sync[..31], m), upsideDown) {
      assert WindowAt(past, sync[..31], m) == WindowAt(past, sync, m);
    }
  }

  lemma RunOne(r: Receiver, bit: bool)
    ensures Run(r, [bit]) == Step(r, bit)
  {
    hide Step;
    assert [bit][..0] == [];
    assert Run(r, [bit][..0]) == (r, []);
    assert [] + Step(r, bit).1 == Step(r, bit).1;
  }
}
