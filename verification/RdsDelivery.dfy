/** End to end: what a synchronised receiver makes of four damaged words of a group. */
module RdsDelivery {
  import opened Options
  import opened Words
  import opened RdsSyndrome
  import opened RdsBlock
  import opened RdsCorrection
  import opened RdsSync
  import opened RdsRuns

  /** The two tables the program builds. */
  function Built(): Tables {
    Tables(Lookup(false), Lookup(true))
  }

  /** A run of bits from a state: the state after it and the group calls on the way. */
  function Received(tables: Tables, st: State, bits: Bits): (r: (State, seq<Call>))
    requires st.Shaped()
    ensures r.0.Shaped()
  {
    if bits == [] then (st, [])
    else
      var (st', calls) := Received(tables, st, bits[..|bits| - 1]);
      var (st'', call) := Step(tables, st', bits[|bits| - 1]);
      (st'', calls + Made(call))
  }

  lemma {:induction false} ReceivedConcat(tables: Tables, st: State, a: Bits, b: Bits)
    requires st.Shaped()
    ensures var (s1, c1) := Received(tables, st, a);
      var (s2, c2) := Received(tables, s1, b);
      Received(tables, st, a + b) == (s2, c1 + c2)
    decreases |b|
  {
    hide Step, Received;
    if b == [] {
      assert a + b == a;
      NothingReceived(tables, Received(tables, st, a).0);
      assert Received(tables, st, a).1 + [] == Received(tables, st, a).1;
    } else {
      var n := |b| - 1;
      ReceivedConcat(tables, st, a, b[..n]);
      assert a + b == (a + b[..n]) + [b[n]] && b == b[..n] + [b[n]];
      var (s1, c1) := Received(tables, st, a);
      var (s2, c2) := Received(tables, s1, b[..n]);
      ReceivedSnoc(tables, st, a + b[..n], b[n]);
      ReceivedSnoc(tables, s1, b[..n], b[n]);
      var call := Step(tables, s2, b[n]).1;
      assert (c1 + c2) + Made(call) == c1 + (c2 + Made(call));
    }
  }

  function Made(call: Option<Call>): seq<Call> {
    if call.Some? then [call.value] else []
  }

  lemma NothingReceived(tables: Tables, st: State)
    requires st.Shaped()
    ensures Received(tables, st, []) == (st, [])
  {
  }

  lemma ReceivedSnoc(tables: Tables, st: State, a: Bits, bit: bool)
    requires st.Shaped()
    ensures var (s1, c1) := Received(tables, st, a);
      Received(tables, st, a + [bit]) == (Step(tables, s1, bit).0, c1 + Made(Step(tables, s1, bit).1))
  {
    hide Step;
    assert (a + [bit])[..|a|] == a;
  }

  // ---------------------------------------------------------------- one block

  /** The bits of a word in the order they are sent. */
  function Sent(w: Block): (bits: Bits)
    ensures |bits| == 26
  {
    seq(26, i requires 0 <= i < 26 => w[25 - i])
  }

  /** The register after n bits of a word. */
  function Loaded(shift: Block, w: Block, n: nat): Block
    requires n <= 26
  {
    w[26 - n..] + shift[..26 - n]
  }

  lemma LoadedStep(shift: Block, w: Block, n: nat)
    requires n < 26
    ensures Loaded(shift, w, n + 1) == [w[25 - n]] + Loaded(shift, w, n)[..25]
  {
  }

  /** A synchronised state part of the way into a block. */
  function Inside(st: State, w: Block, n: nat): State
    requires n <= 26
  {
    st.(shift := Loaded(st.shift, w, n), acq := st.acq.(bitCounter := st.acq.bitCounter + n),
        frame := st.frame.(bits := n))
  }

  lemma {:induction false} InsideBlock(tables: Tables, st: State, w: Block, n: nat)
    requires st.Shaped() && st.acq.synced && st.frame.bits == 0 && n < 26
    ensures Received(tables, st, Sent(w)[..n]) == (Inside(st, w, n), [])
  {
    hide Step, Loaded, Received;
    if n == 0 {
      NothingLoaded(st.shift, w);
      NothingReceived(tables, st);
      assert Sent(w)[..0] == [];
      assert Inside(st, w, 0) == st;
    } else {
      var before := Inside(st, w, n - 1);
      InsideBlock(tables, st, w, n - 1);
      assert Sent(w)[..n] == Sent(w)[..n - 1] + [w[26 - n]];
      ReceivedSnoc(tables, st, Sent(w)[..n - 1], w[26 - n]);
      InsideStep(tables, before, w[26 - n]);
      LoadedStep(st.shift, w, n - 1);
      var taken := BitTaken(before, w[26 - n]);
      assert taken.shift == Loaded(st.shift, w, n);
      assert taken.(frame := taken.frame.(bits := n)) == Inside(st, w, n);
      assert [] + Made(None) == [];
    }
  }

  lemma NothingLoaded(shift: Block, w: Block)
    ensures Loaded(shift, w, 0) == shift && Loaded(shift, w, 26) == w
  {
  }

  /** The state in which the end of a block is worked on. */
  function AtEnd(st: State, w: Block): State {
    st.(shift := w, acq := st.acq.(bitCounter := st.acq.bitCounter + 26), frame := st.frame.(bits := 25))
  }

  lemma WholeBlock(tables: Tables, st: State, w: Block, data: Data, ok: bool)
    requires st.Shaped() && st.acq.synced && st.frame.bits == 0
    requires (data, ok) == Verified(w, st.frame.number, TableInUse(tables, st))
    ensures var st1 := Recorded(AtEnd(st, w), data, ok);
      Received(tables, st, Sent(w)) ==
        (Judged(Grouped(st1)), if st.frame.number == 3 then [Call(st1.frame.blocks, st1.frame.valid)] else [])
  {
    hide Step, Loaded, Verified, Judged, Grouped, Recorded, Received;
    InsideBlock(tables, st, w, 25);
    var st0 := Inside(st, w, 25);
    LoadedStep(st.shift, w, 25);
    NothingLoaded(st.shift, w);
    assert BitTaken(st0, w[0]) == AtEnd(st, w);
    BlockStep(tables, st0, w[0], data, ok);
    assert Sent(w) == Sent(w)[..25] + [w[0]];
    ReceivedSnoc(tables, st, Sent(w)[..25], w[0]);
    var call := Step(tables, st0, w[0]).1;
    assert [] + Made(call) == Made(call);
  }

  /** The window of forty ends with this block, and too many of it were bad. */
  predicate EndsBadly(q: Quality, blocks: nat) {
    q.blocks + blocks >= 40 && q.wrong > 16
  }

  /** A verified block that is not the last of its group. */
  lemma GoodBlock(tables: Tables, st: State, w: Block, data: Data)
    requires st.Shaped() && st.acq.synced && st.frame.bits == 0 && st.frame.number < 3 && st.quality.blocks < 40
    requires Verified(w, st.frame.number, TableInUse(tables, st)) == (data, true)
    ensures var (st', calls) := Received(tables, st, Sent(w));
      var f, q := st.frame, st.quality;
      && calls == [] && (st'.acq.synced <==> !EndsBadly(q, 1))
      && (st'.acq.synced ==>
            && st'.frame == Frame(0, f.number + 1, f.blocks[f.number := data], f.valid[f.number := true])
            && st'.quality == (if q.blocks + 1 == 40 then Quality(0, 0, 0) else Quality(q.wrong, q.blocks + 1, 0))
            && st'.station.pi == st.station.pi)
  {
    hide Received, Verified, Judged;
    WholeBlock(tables, st, w, data, true);
    JudgedByCount(Grouped(Recorded(AtEnd(st, w), data, true)));
  }

  /** A verified block that ends its group makes the group call, whatever becomes of the sync. */
  lemma LastBlock(tables: Tables, st: State, w: Block, data: Data)
    requires st.Shaped() && st.acq.synced && st.frame.bits == 0 && st.frame.number == 3
    requires Verified(w, 3, TableInUse(tables, st)) == (data, true)
    ensures Received(tables, st, Sent(w)).1 == [Call(st.frame.blocks[3 := data], st.frame.valid[3 := true])]
  {
    hide Received, Verified, Judged, Grouped;
    WholeBlock(tables, st, w, data, true);
  }

  // ---------------------------------------------------------------- one group

  /** Damage that verification removes from a word sent with the first offset of its position: none,
      or a listed pattern of the table in use that is not a pair of data bits nine apart. */
  ghost predicate Repairable(e: Block, twoBitData: bool) {
    || e == NoDamage()
    || exists d :: Possible(d) && (d.PairAt? ==> twoBitData) && !NineApart(d) && e == ErrorOf(d)
  }

  function NoDamage(): Block {
    seq(26, _ => false)
  }

  lemma Repaired(c: Block, e: Block, position: nat, st: State)
    requires position < 4 && Syndrome(c) == Offsets(position)[0] && Repairable(e, st.station.pi.Some?)
    ensures Verified(Xor(c, e), position, TableInUse(Built(), st)) == (DataOf(c), true)
  {
    hide Syndrome, Verified, Lookup, ErrorOf, Offsets, NineApart, DataOf;
    if e == NoDamage() {
      assert Xor(c, e) == c;
      Undamaged(c, position, TableInUse(Built(), st));
    } else {
      var d :| Possible(d) && (d.PairAt? ==> st.station.pi.Some?) && !NineApart(d) && e == ErrorOf(d);
      CorrectedExactly(c, d, position, st.station.pi.Some?);
    }
  }

  /** The words of a group as received, one after the other. */
  function GroupBits(c: seq<Block>, e: seq<Block>): Bits
    requires |c| == |e| == 4
  {
    Sent(Xor(c[0], e[0])) + Sent(Xor(c[1], e[1])) + Sent(Xor(c[2], e[2])) + Sent(Xor(c[3], e[3]))
  }

  /** Words sent with the offsets of a group, each with repairable damage. */
  ghost predicate Sendable(c: seq<Block>, e: seq<Block>, twoBitData: bool) {
    && |c| == |e| == 4
    && forall i :: 0 <= i < 4 ==> Syndrome(c[i]) == Offsets(i)[0] && Repairable(e[i], twoBitData)
  }

  /** Synchronised, and about to hear the first bit of block 0; and no window of forty blocks with more
      than sixteen bad ones ends before the fourth block from here. */
  predicate AtGroupStart(st: State) {
    st.acq.synced && st.frame.bits == 0 && st.frame.number == 0 && !EndsBadly(st.quality, 3)
  }

  /** The call that delivers a group whole. */
  function Whole(c: seq<Block>): Call
    requires |c| == 4
  {
    Call([DataOf(c[0]), DataOf(c[1]), DataOf(c[2]), DataOf(c[3])], [true, true, true, true])
  }

  lemma FourBlocks(s0: State, c: seq<Block>, e: seq<Block>)
    requires s0.Shaped() && s0.quality.blocks < 40 && AtGroupStart(s0) && Sendable(c, e, s0.station.pi.Some?)
    ensures Received(Built(), s0, GroupBits(c, e)).1 == [Whole(c)]
  {
    hide Received, Syndrome, Verified, Repairable, Built, Offsets, DataOf, Sent, TableInUse;
    var w := seq(4, i requires 0 <= i < 4 => Xor(c[i], e[i]));
    Repaired(c[0], e[0], 0, s0);
    GoodBlock(Built(), s0, w[0], DataOf(c[0]));
    var (s1, c1) := Received(Built(), s0, Sent(w[0]));
    Repaired(c[1], e[1], 1, s1);
    GoodBlock(Built(), s1, w[1], DataOf(c[1]));
    var (s2, c2) := Received(Built(), s1, Sent(w[1]));
    Repaired(c[2], e[2], 2, s2);
    GoodBlock(Built(), s2, w[2], DataOf(c[2]));
    var (s3, c3) := Received(Built(), s2, Sent(w[2]));
    Repaired(c[3], e[3], 3, s3);
    LastBlock(Built(), s3, w[3], DataOf(c[3]));
    FourParts(s0, Sent(w[0]), Sent(w[1]), Sent(w[2]), Sent(w[3]));
    var call := Call(s3.frame.blocks[3 := DataOf(c[3])], s3.frame.valid[3 := true]);
    assert call.blocks == Whole(c).blocks && call.valid == Whole(c).valid;
    assert [] + [] + [] + [call] == [call];
  }

  /** The state after a run. */
  function StateAfter(events: seq<Event>): (st: State)
    ensures st.Shaped()
  {
    RdsRuns.Run(Built(), events).st
  }

  /** Delivery. After any run, a receiver at the start of a group that hears words sent with offsets A,
      B, C and D, each with any repairable damage, makes one group call with exactly the data sent,
      all of it flagged valid. */
  lemma GroupDelivered(events: seq<Event>, c: seq<Block>, e: seq<Block>)
    requires AtGroupStart(StateAfter(events)) && Sendable(c, e, StateAfter(events).station.pi.Some?)
    ensures Received(Built(), StateAfter(events), GroupBits(c, e)).1 == [Whole(c)]
  {
    hide RdsRuns.Run, Received, Sendable, Built, Whole, GroupBits, AtGroupStart;
    SteadyAlways(Built(), events);
    FourBlocks(StateAfter(events), c, e);
  }

  /** The condition is needed: if such a window ends within the first three blocks, sync is given up
      there, however good the blocks are. */
  lemma WindowEndsBadly(st: State, w: Block, data: Data)
    requires st.Shaped() && st.acq.synced && st.frame.bits == 0 && st.frame.number < 3 && st.quality.blocks == 39
    requires Verified(w, st.frame.number, TableInUse(Built(), st)) == (data, true) && st.quality.wrong > 16
    ensures !Received(Built(), st, Sent(w)).0.acq.synced
  {
    hide Received, Verified, Built;
    GoodBlock(Built(), st, w, data);
  }

  lemma FourParts(st: State, a: Bits, b: Bits, c: Bits, d: Bits)
    requires st.Shaped()
    ensures var (s1, c1) := Received(Built(), st, a);
      var (s2, c2) := Received(Built(), s1, b);
      var (s3, c3) := Received(Built(), s2, c);
      var (s4, c4) := Received(Built(), s3, d);
      Received(Built(), st, a + b + c + d) == (s4, c1 + c2 + c3 + c4)
  {
    hide Received, Built;
    ReceivedConcat(Built(), st, a, b);
    ReceivedConcat(Built(), st, a + b, c);
    ReceivedConcat(Built(), st, a + b + c, d);
  }
}
