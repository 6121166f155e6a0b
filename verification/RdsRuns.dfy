/** What the RDS synchroniser keeps over whole runs: every interleaving of received bits,
    watchdog checks and resets. */
module RdsRuns {
  import opened Options
  import opened Words
  import opened RdsSyndrome
  import opened RdsBlock
  import opened RdsSync

  datatype Event = Bit(bit: bool) | Watchdog(n: nat) | Reset

  /** A state together with what led to it: the bits since the last reset, the outcomes
      (true: bad) of the blocks since sync was gained, and the PI code of the last group whose
      blocks A and B were both valid. */
  datatype Trace = Trace(st: State, heard: Bits, outcomes: seq<bool>, lastPi: Option<Data>)

  function Start(): Trace {
    Trace(Initial(), [], [], None)
  }

  /** The outcome of the block that this bit completes, if it completes one. */
  function Outcome(tables: Tables, st: State, bit: bool): seq<bool>
    requires st.Shaped()
  {
    if st.acq.synced && st.frame.bits + 1 == BLOCK_SIZE then
      [!Verified(BitTaken(st, bit).shift, st.frame.number, TableInUse(tables, st)).1]
    else []
  }

  function UsablePi(call: Option<Call>, previous: Option<Data>): Option<Data> {
    if call.Some? && |call.value.valid| == 4 && |call.value.blocks| == 4 && call.value.valid[0] && call.value.valid[1]
    then Some(call.value.blocks[0]) else previous
  }

  function Next(tables: Tables, t: Trace, e: Event): Trace
    requires t.st.Shaped()
    ensures Next(tables, t, e).st.Shaped()
  {
    match e
    case Bit(bit) =>
      var (st, call) := Step(tables, t.st, bit);
      Trace(st, t.heard + [bit],
            if t.st.acq.synced && st.acq.synced then t.outcomes + Outcome(tables, t.st, bit) else [],
            UsablePi(call, t.lastPi))
    case Watchdog(n) => t.(st := Watched(t.st, n))
    case Reset => Start()
  }

  function Run(tables: Tables, events: seq<Event>): (t: Trace)
    ensures t.st.Shaped()
  {
    if events == [] then Start()
    else Next(tables, Run(tables, events[..|events| - 1]), events[|events| - 1])
  }

  // ---------------------------------------------------------------- freshness

  /** The 26 bits that end at a given time, newest in bit 0; silence before the start. */
  function Window(heard: Bits, end: nat): Block
    requires end <= |heard|
  {
    seq(26, i requires 0 <= i < 26 => i < end && heard[end - 1 - i])
  }

  /** Block i of the group is the verified content of the window that ends at the given time. */
  ghost predicate Carries(tables: Tables, st: State, heard: Bits, i: nat, end: int, data: Data) {
    26 <= end <= |heard| && Verified(Window(heard, end), i, TableInUse(tables, st)) == (data, true)
  }

  /** When block i of the group in progress ended, counting back whole blocks. */
  function EndOf(t: Trace, i: nat): int {
    |t.heard| - t.st.frame.bits - BLOCK_SIZE * (t.st.frame.number - 1 - i)
  }

  ghost predicate Fresh(tables: Tables, t: Trace) {
    && t.st.Shaped() && t.st.shift == Window(t.heard, |t.heard|)
    && (t.st.acq.synced ==> t.st.frame.bits < |t.heard|)
    && (t.st.acq.synced ==> forall i :: 0 <= i < 4 && t.st.frame.valid[i] ==>
          i < t.st.frame.number && Carries(tables, t.st, t.heard, i, EndOf(t, i), t.st.frame.blocks[i]))
  }

  /** What a group call may rely on: block i, if flagged valid, is the verified content of the
      window that ended exactly 26 (3 - i) bits ago. */
  ghost predicate CallFresh(tables: Tables, st: State, heard: Bits, call: Call) {
    && |call.blocks| == 4 && |call.valid| == 4
    && forall i :: 0 <= i < 4 && call.valid[i] ==>
      Carries(tables, st, heard, i, |heard| - BLOCK_SIZE * (3 - i), call.blocks[i])
  }

  lemma WindowGrows(heard: Bits, bit: bool, end: nat)
    requires end <= |heard|
    ensures Window(heard + [bit], end) == Window(heard, end)
    ensures Window(heard + [bit], |heard| + 1) == [bit] + Window(heard, |heard|)[..25]
  {
  }

  lemma CarriesLater(tables: Tables, st: State, st': State, heard: Bits, bit: bool, i: nat, end: int, data: Data)
    requires Carries(tables, st, heard, i, end, data) && st.station.pi.Some? == st'.station.pi.Some?
    ensures Carries(tables, st', heard + [bit], i, end, data)
  {
    WindowGrows(heard, bit, end);
  }

  /** A block just completed carries its window. */
  lemma BlockRecorded(tables: Tables, t: Trace, bit: bool, data: Data, ok: bool)
    requires Fresh(tables, t) && t.st.acq.synced && t.st.frame.bits + 1 == BLOCK_SIZE
    requires (data, ok) == Verified(BitTaken(t.st, bit).shift, t.st.frame.number, TableInUse(tables, t.st))
    ensures var st := Recorded(BitTaken(t.st, bit), data, ok);
      var heard := t.heard + [bit];
      forall i :: 0 <= i < 4 && st.frame.valid[i] ==>
        i <= st.frame.number
        && Carries(tables, st, heard, i, |heard| - BLOCK_SIZE * (st.frame.number - i), st.frame.blocks[i])
  {
    hide Verified, Window;
    var st := Recorded(BitTaken(t.st, bit), data, ok);
    var heard := t.heard + [bit];
    WindowGrows(t.heard, bit, |t.heard|);
    var number := t.st.frame.number;
    forall i | 0 <= i < 4 && st.frame.valid[i]
      ensures i <= number
      ensures Carries(tables, st, heard, i, |heard| - BLOCK_SIZE * (number - i), st.frame.blocks[i])
    {
      if i != number {
        CarriesLater(tables, t.st, st, t.heard, bit, i, EndOf(t, i), st.frame.blocks[i]);
      }
    }
  }

  lemma BlockStep(tables: Tables, st: State, bit: bool, data: Data, ok: bool)
    requires st.Shaped() && st.acq.synced && st.frame.bits + 1 == BLOCK_SIZE
    requires (data, ok) == Verified(BitTaken(st, bit).shift, st.frame.number, TableInUse(tables, st))
    ensures var st1 := Recorded(BitTaken(st, bit), data, ok);
      Step(tables, st, bit) ==
        (Judged(Grouped(st1)), if st.frame.number == 3 then Some(Call(st1.frame.blocks, st1.frame.valid)) else None)
  {
    hide Verified, Judged, Grouped, Recorded;
  }

  lemma FreshBlock(tables: Tables, t: Trace, bit: bool)
    requires Fresh(tables, t) && t.st.acq.synced && t.st.frame.bits + 1 == BLOCK_SIZE
    ensures Fresh(tables, Next(tables, t, Bit(bit)))
    ensures var call := Step(tables, t.st, bit).1;
      call.Some? ==> CallFresh(tables, t.st, t.heard + [bit], call.value)
  {
    hide Verified, Window, Carries, Judged, Grouped, Recorded, Step, TableInUse;
    var st0 := BitTaken(t.st, bit);
    var (data, ok) := Verified(st0.shift, t.st.frame.number, TableInUse(tables, t.st));
    BlockStep(tables, t.st, bit, data, ok);
    BlockRecorded(tables, t, bit, data, ok);
    WindowGrows(t.heard, bit, |t.heard|);
    var st1 := Recorded(st0, data, ok);
    var st2 := Judged(Grouped(st1));
    var heard := t.heard + [bit];
    AfterBlock(st0, data, ok);
    var t' := Next(tables, t, Bit(bit));
    assert t'.st == st2 && t'.heard == heard;
    forall i | 0 <= i < 4 && st1.frame.valid[i]
      ensures Carries(tables, t.st, heard, i, |heard| - BLOCK_SIZE * (st1.frame.number - i), st1.frame.blocks[i])
    {
      SameTable(tables, st1, t.st, heard, i, |heard| - BLOCK_SIZE * (st1.frame.number - i), st1.frame.blocks[i]);
    }
    if t.st.frame.number < 3 {
      forall i | 0 <= i < 4 && st2.frame.valid[i]
        ensures i < st2.frame.number && Carries(tables, st2, heard, i, EndOf(t', i), st2.frame.blocks[i])
      {
        SameTable(tables, st1, st2, heard, i, EndOf(t', i), st2.frame.blocks[i]);
      }
    }
  }

  /** How the end of a block leaves the frame: one position on, with the same blocks; or, after
      the last, with no block valid. Judging the sync does not touch it. */
  lemma AfterBlock(st0: State, data: Data, ok: bool)
    requires st0.Shaped()
    ensures var st1 := Recorded(st0, data, ok);
      var st2 := Judged(Grouped(st1));
      && st1.frame.number == st0.frame.number && st1.shift == st2.shift == st0.shift
      && st1.frame.bits == st2.frame.bits == 0 && st1.station.pi == st0.station.pi
      && (st0.frame.number < 3 ==> st2.frame.number == st1.frame.number + 1 && st2.station.pi == st1.station.pi)
      && (st0.frame.number < 3 ==> st2.frame.blocks == st1.frame.blocks && st2.frame.valid == st1.frame.valid)
      && (st0.frame.number == 3 ==> st2.frame.number == 0 && st2.frame.valid == NoneValid())
  {
  }

  lemma SameTable(tables: Tables, a: State, b: State, heard: Bits, i: nat, end: int, data: Data)
    requires a.station.pi.Some? == b.station.pi.Some?
    ensures Carries(tables, a, heard, i, end, data) <==> Carries(tables, b, heard, i, end, data)
  {
  }

  lemma FreshStep(tables: Tables, t: Trace, e: Event)
    requires Fresh(tables, t)
    ensures Fresh(tables, Next(tables, t, e))
    ensures e.Bit? ==> var call := Step(tables, t.st, e.bit).1;
      call.Some? ==> CallFresh(tables, t.st, t.heard + [e.bit], call.value)
  {
    hide Verified, Window, Carries, Syndrome, Searched, FirstOffset, BlockDone;
    match e
    case Bit(bit) =>
      if !t.st.acq.synced {
        FreshSearch(tables, t, bit);
      } else if t.st.frame.bits + 1 == BLOCK_SIZE {
        FreshBlock(tables, t, bit);
      } else {
        FreshInside(tables, t, bit);
      }
    case Watchdog(n) =>
      SameWatched(tables, t, n);
    case Reset =>
      FreshStart(tables);
  }

  lemma FreshSearch(tables: Tables, t: Trace, bit: bool)
    requires Fresh(tables, t) && !t.st.acq.synced
    ensures Fresh(tables, Next(tables, t, Bit(bit))) && Step(tables, t.st, bit).1 == None
  {
    hide Verified, Window, Carries, Syndrome, FirstOffset, BlockDone;
    WindowGrows(t.heard, bit, |t.heard|);
  }

  lemma FreshInside(tables: Tables, t: Trace, bit: bool)
    requires Fresh(tables, t) && t.st.acq.synced && t.st.frame.bits + 1 < BLOCK_SIZE
    ensures Fresh(tables, Next(tables, t, Bit(bit))) && Step(tables, t.st, bit).1 == None
  {
    hide Verified, Window, Carries, Step;
    InsideStep(tables, t.st, bit);
    WindowGrows(t.heard, bit, |t.heard|);
    var t' := Next(tables, t, Bit(bit));
    forall i | 0 <= i < 4 && t'.st.frame.valid[i]
      ensures i < t'.st.frame.number && Carries(tables, t'.st, t'.heard, i, EndOf(t', i), t'.st.frame.blocks[i])
    {
      CarriesLater(tables, t.st, t'.st, t.heard, bit, i, EndOf(t, i), t.st.frame.blocks[i]);
    }
  }

  lemma InsideStep(tables: Tables, st: State, bit: bool)
    requires st.Shaped() && st.acq.synced && st.frame.bits + 1 < BLOCK_SIZE
    ensures Step(tables, st, bit) ==
      (var st0 := BitTaken(st, bit); st0.(frame := st0.frame.(bits := st.frame.bits + 1)), None)
  {
    hide Verified, Syndrome, BlockDone, Searched, FirstOffset;
  }

  lemma SameWatched(tables: Tables, t: Trace, n: nat)
    requires Fresh(tables, t)
    ensures Fresh(tables, Next(tables, t, Watchdog(n)))
  {
    hide Verified, Window;
  }

  lemma FreshStart(tables: Tables)
    ensures Fresh(tables, Start())
  {
    assert Window([], 0) == Initial().shift;
  }

  lemma {:induction false} FreshAlways(tables: Tables, events: seq<Event>)
    ensures Fresh(tables, Run(tables, events))
  {
    hide Fresh, Next;
    if events == [] {
      FreshStart(tables);
    } else {
      FreshAlways(tables, events[..|events| - 1]);
      FreshStep(tables, Run(tables, events[..|events| - 1]), events[|events| - 1]);
    }
  }

  /** Freshness: after any run whatever, if the next bit makes the group decoder be called, every
      block it may read is the verified content of its own window of the bits just heard. */
  lemma GroupsAreFresh(tables: Tables, events: seq<Event>, bit: bool)
    ensures var t := Run(tables, events);
      var call := Step(tables, t.st, bit).1;
      call.Some? ==> CallFresh(tables, t.st, t.heard + [bit], call.value)
  {
    hide Fresh, CallFresh, Run;
    FreshAlways(tables, events);
    FreshStep(tables, Run(tables, events), Bit(bit));
  }

  // ---------------------------------------------------------------- quality of a held sync

  function Bad(outcomes: seq<bool>): (n: nat)
    ensures n <= |outcomes|
  {
    if outcomes == [] then 0
    else Bad(outcomes[..|outcomes| - 1]) + (if outcomes[|outcomes| - 1] then 1 else 0)
  }

  /** Length of the run of bad blocks at the end. */
  function TrailingBad(outcomes: seq<bool>): (n: nat)
    ensures n <= |outcomes|
  {
    if outcomes == [] || !outcomes[|outcomes| - 1] then 0
    else TrailingBad(outcomes[..|outcomes| - 1]) + 1
  }

  /** Among the ten outcomes from i on there is a good one. */
  ghost predicate SomeGood(outcomes: seq<bool>, i: nat)
    requires i + 10 <= |outcomes|
  {
    exists k :: i <= k < i + 10 && !outcomes[k]
  }

  ghost predicate NoTenBad(outcomes: seq<bool>) {
    forall i: nat :: i + 10 <= |outcomes| ==> SomeGood(outcomes, i)
  }

  ghost predicate Steady(t: Trace) {
    var o, q, acq := t.outcomes, t.st.quality, t.st.acq;
    && (!acq.synced ==> o == [] && q.consecutive == 0)
    && q.wrong <= q.blocks < 40 && q.consecutive < 10
    && (acq.synced ==> q.blocks == |o| % 40 && Bad(o) <= 16 * (|o| / 40) + q.wrong)
    && (acq.synced ==> q.consecutive == TrailingBad(o) && NoTenBad(o))
    && t.st.station.uncorrectable <= t.st.station.total
    && acq.nudges < 4
  }

  lemma {:induction false} LongTail(o: seq<bool>, k: nat)
    requires k <= |o| && forall i :: |o| - k <= i < |o| ==> o[i]
    ensures TrailingBad(o) >= k
  {
    if k > 0 {
      LongTail(o[..|o| - 1], k - 1);
    }
  }

  lemma StillNoTenBad(o: seq<bool>, bad: bool)
    requires NoTenBad(o) && TrailingBad(o + [bad]) < 10
    ensures NoTenBad(o + [bad])
  {
    var o' := o + [bad];
    forall i: nat | i + 10 <= |o'| ensures SomeGood(o', i) {
      if i + 10 <= |o| {
        assert SomeGood(o, i);
        var k :| i <= k < i + 10 && !o[k];
        assert !o'[k];
      } else if !SomeGood(o', i) {
        LongTail(o', 10);
      }
    }
  }

  /** A window of forty, counted along with the blocks. */
  lemma WindowCount(n: nat, blocks: nat)
    requires n >= 1 && blocks == (n - 1) % 40 + 1
    ensures blocks <= 40
    ensures blocks < 40 ==> n % 40 == blocks && n / 40 == (n - 1) / 40
    ensures blocks == 40 ==> n % 40 == 0 && n / 40 == (n - 1) / 40 + 1
  {
  }

  lemma JudgedSteady(st: State, o: seq<bool>)
    requires st.acq.synced && st.quality.wrong <= st.quality.blocks <= 40 && st.acq.nudges < 4
    requires o != [] && st.quality.blocks == (|o| - 1) % 40 + 1 && Bad(o) <= 16 * ((|o| - 1) / 40) + st.quality.wrong
    requires st.quality.consecutive == TrailingBad(o) && NoTenBad(o[..|o| - 1])
    requires st.station.uncorrectable <= st.station.total
    ensures var st' := Judged(st);
      Steady(Trace(st', [], if st'.acq.synced then o else [], None))
  {
    hide NoTenBad, Bad, TrailingBad, Judged;
    var q := st.quality;
    JudgedByCount(st);
    NoneIsSteady();
    WindowCount(|o|, q.blocks);
    assert o == o[..|o| - 1] + [o[|o| - 1]];
    if q.consecutive < 10 {
      StillNoTenBad(o[..|o| - 1], o[|o| - 1]);
    }
  }

  /** In whole numbers: of a full window of forty, more than sixteen bad blocks are too many. */
  lemma JudgedByCount(st: State)
    requires st.quality.blocks <= 40
    ensures var q := st.quality;
      Judged(st) ==
        if q.consecutive >= 10 || (q.blocks == 40 && q.wrong > 16) then SyncDropped(st)
        else if q.blocks == 40 then st.(quality := Quality(0, 0, q.consecutive))
        else st
  {
    var q := st.quality;
    if q.blocks == 40 {
      assert q.wrong as real / q.blocks as real == q.wrong as real / 40.0;
    }
  }

  lemma SnocCounts(o: seq<bool>, bad: bool)
    ensures Bad(o + [bad]) == Bad(o) + (if bad then 1 else 0)
    ensures TrailingBad(o + [bad]) == if bad then TrailingBad(o) + 1 else 0
  {
    assert (o + [bad])[..|o|] == o;
  }

  /** A recorded block in the counters, unless the group decoder has just dropped the sync. */
  lemma RecordedQuality(st: State, data: Data, ok: bool)
    requires st.Shaped()
    ensures var r := Grouped(Recorded(st, data, ok));
      && (r.acq.synced ==> r.acq == st.acq)
      && (r.acq.synced ==>
            r.quality == Quality(st.quality.wrong + (if ok then 0 else 1), st.quality.blocks + 1,
                                 if ok then 0 else st.quality.consecutive + 1))
      && (st.acq.synced && !r.acq.synced ==> r.quality == Quality(0, 0, 0) && r.acq.nudges == 1)
      && (st.station.uncorrectable <= st.station.total ==> r.station.uncorrectable <= r.station.total)
  {
  }

  lemma SteadyBlock(tables: Tables, t: Trace, bit: bool)
    requires Steady(t) && t.st.Shaped() && t.st.acq.synced && t.st.frame.bits + 1 == BLOCK_SIZE
    ensures Steady(Next(tables, t, Bit(bit)))
  {
    hide Verified, Judged, NoTenBad, Bad, TrailingBad, Grouped, Recorded, Step, TableInUse;
    var st0 := BitTaken(t.st, bit);
    var (data, ok) := Verified(st0.shift, t.st.frame.number, TableInUse(tables, t.st));
    BlockStep(tables, t.st, bit, data, ok);
    var o := t.outcomes + [!ok];
    assert o[..|o| - 1] == t.outcomes;
    SnocCounts(t.outcomes, !ok);
    RecordedQuality(st0, data, ok);
    var st2 := Grouped(Recorded(st0, data, ok));
    if st2.acq.synced {
      JudgedSteady(st2, o);
    } else {
      JudgedDropped(st2);
      NoneIsSteady();
    }
  }

  lemma JudgedDropped(st: State)
    requires !st.acq.synced && st.quality == Quality(0, 0, 0)
    ensures Judged(st) == st
  {
  }

  lemma NoneIsSteady()
    ensures NoTenBad([]) && TrailingBad([]) == 0 && Bad([]) == 0
  {
  }

  /** Searching gains sync with empty windows, or changes nothing that counts. */
  lemma SteadySearch(t: Trace, st: State, bit: bool, j: nat)
    requires Steady(t) && t.st.Shaped() && !t.st.acq.synced && j <= 5
    requires st == Searched(BitTaken(t.st, bit), j)
    ensures Steady(Trace(st, t.heard + [bit], [], t.lastPi))
  {
    NoneIsSteady();
  }

  lemma SteadyStep(tables: Tables, t: Trace, e: Event)
    requires Steady(t) && t.st.Shaped()
    ensures Steady(Next(tables, t, e))
  {
    hide Verified, Syndrome, BlockDone, NoTenBad, Searched, FirstOffset, Bad, TrailingBad;
    match e
    case Bit(bit) =>
      var st0 := BitTaken(t.st, bit);
      if !t.st.acq.synced {
        SteadySearch(t, Step(tables, t.st, bit).0, bit, FirstOffset(Syndrome(st0.shift), 0));
      } else if t.st.frame.bits + 1 == BLOCK_SIZE {
        SteadyBlock(tables, t, bit);
      } else {
        assert t.outcomes + [] == t.outcomes;
      }
    case Watchdog(n) =>
    case Reset =>
      SteadyStart();
  }

  lemma {:induction false} SteadyAlways(tables: Tables, events: seq<Event>)
    ensures Steady(Run(tables, events))
  {
    hide Steady, Next;
    if events == [] {
      SteadyStart();
    } else {
      SteadyAlways(tables, events[..|events| - 1]);
      SteadyStep(tables, Run(tables, events[..|events| - 1]), events[|events| - 1]);
    }
  }

  lemma SteadyStart()
    ensures Steady(Start())
  {
  }

  /** While sync is held, there are never ten bad blocks in a row, at most 16 of every full
      window of forty blocks are bad, and the counters stay in their ranges. */
  lemma HeldSyncQuality(tables: Tables, events: seq<Event>)
    ensures var t := Run(tables, events);
      var o, q := t.outcomes, t.st.quality;
      && (t.st.acq.synced ==> NoTenBad(o) && Bad(o) <= 16 * (|o| / 40) + |o| % 40)
      && q.wrong <= q.blocks < 40 && q.consecutive < 10 && t.st.frame.bits < BLOCK_SIZE
      && t.st.station.uncorrectable <= t.st.station.total
  {
    hide NoTenBad, Run, Bad;
    SteadyAlways(tables, events);
  }

  /** The watchdog's longer limit is never used: the nudge count is kept modulo four, so in every
      reachable state the limit is 750 bits. */
  lemma WatchdogNeverRelaxes(tables: Tables, events: seq<Event>, n: nat)
    ensures var st := Run(tables, events).st;
      Watched(st, n).acq.nudges != st.acq.nudges <==> !st.acq.synced && st.acq.watchdogBits + n >= 750
  {
    hide Run;
    SteadyAlways(tables, events);
  }

  // ---------------------------------------------------------------- the PI code

  /** The candidate code is the code of the last usable group, if that is not the PI code. */
  ghost predicate PiKept(t: Trace) {
    && (t.st.station.pi == None ==> t.st.station.candidate == None)
    && (t.st.station.pi.Some? ==>
          t.lastPi.Some? && t.st.station.candidate == if t.lastPi == t.st.station.pi then None else t.lastPi)
  }

  /** Recording a block changes neither PI code nor candidate nor the group count. */
  lemma RecordedStation(st: State, data: Data, ok: bool)
    requires st.Shaped()
    ensures var r := Recorded(st, data, ok);
      && r.station.pi == st.station.pi && r.station.candidate == st.station.candidate
      && r.station.groups == st.station.groups && r.frame.number == st.frame.number
      && r.acq == st.acq && |r.frame.blocks| == |r.frame.valid| == 4
  {
  }

  lemma JudgedStation(st: State)
    ensures var r := Judged(st);
      && r.station.pi == st.station.pi && r.station.candidate == st.station.candidate
      && (!st.acq.synced ==> !r.acq.synced)
  {
  }

  /** What the group decoder decides depends on codes and group count alone. */
  lemma SameDecision(a: State, b: State, call: Call)
    requires |call.blocks| == 4 && |call.valid| == 4 && a.acq == b.acq
    requires a.station.pi == b.station.pi && a.station.candidate == b.station.candidate
    requires a.station.groups == b.station.groups
    ensures var g, h := GroupDecoded(a, call), GroupDecoded(b, call);
      g.station.pi == h.station.pi && g.station.candidate == h.station.candidate && g.acq == h.acq
  {
  }

  lemma StationAfterBlock(tables: Tables, st: State, bit: bool)
    requires st.Shaped() && st.acq.synced && st.frame.bits + 1 == BLOCK_SIZE
    ensures var (st', call) := Step(tables, st, bit);
      && (call.None? ==> st'.station.pi == st.station.pi && st'.station.candidate == st.station.candidate)
      && (call.Some? ==> |call.value.blocks| == 4 && |call.value.valid| == 4)
      && (call.Some? ==> var g := GroupDecoded(st, call.value);
            && st'.station.pi == g.station.pi && st'.station.candidate == g.station.candidate
            && (!g.acq.synced ==> !st'.acq.synced))
  {
    hide Verified, Recorded, Judged, GroupDecoded;
    var st0 := BitTaken(st, bit);
    var (data, ok) := Verified(st0.shift, st.frame.number, TableInUse(tables, st0));
    RecordedStation(st0, data, ok);
    var st1 := Recorded(st0, data, ok);
    JudgedStation(Grouped(st1));
    if st.frame.number == 3 {
      var call := Call(st1.frame.blocks, st1.frame.valid);
      SameDecision(st0, st1, call);
      TakenDecision(st, bit, call);
    }
  }

  lemma TakenDecision(st: State, bit: bool, call: Call)
    requires |call.blocks| == 4 && |call.valid| == 4
    ensures var g, h := GroupDecoded(st, call), GroupDecoded(BitTaken(st, bit), call);
      g.station == h.station && g.acq.synced == h.acq.synced
  {
  }

  lemma PiStep(tables: Tables, t: Trace, e: Event)
    requires PiKept(t) && t.st.Shaped()
    ensures PiKept(Next(tables, t, e))
  {
    hide Verified, Syndrome, Step;
    match e
    case Bit(bit) =>
      if t.st.acq.synced && t.st.frame.bits + 1 == BLOCK_SIZE {
        StationAfterBlock(tables, t.st, bit);
      } else {
        StationOtherwise(tables, t.st, bit);
      }
    case Watchdog(n) =>
    case Reset =>
  }

  lemma StationOtherwise(tables: Tables, st: State, bit: bool)
    requires st.Shaped() && !(st.acq.synced && st.frame.bits + 1 == BLOCK_SIZE)
    ensures Step(tables, st, bit).1 == None && Step(tables, st, bit).0.station == st.station
  {
    hide Syndrome, Verified;
  }

  lemma {:induction false} PiAlways(tables: Tables, events: seq<Event>)
    ensures PiKept(Run(tables, events))
  {
    hide PiKept, Next;
    if events == [] {
      PiStart();
    } else {
      PiAlways(tables, events[..|events| - 1]);
      PiStep(tables, Run(tables, events[..|events| - 1]), events[|events| - 1]);
    }
  }

  lemma PiStart()
    ensures PiKept(Start())
  {
  }

  /** The PI code after a group of which blocks A and B are valid, A carrying code a; last is the
      code of the usable group before it. A code already held gives way only to one received
      twice running, with at least four groups since the counters were cleared; earlier than
      that, a different code makes it be forgotten. */
  function PiAfter(pi: Option<Data>, last: Option<Data>, groups: nat, a: Data): Option<Data> {
    if pi == None || pi == Some(a) then Some(a)
    else if groups < 4 then None
    else if last == Some(a) then Some(a)
    else pi
  }

  /** What the PI code becomes, in terms of the group count the state holds. */
  lemma PiDecided(tables: Tables, events: seq<Event>, bit: bool)
    ensures var t := Run(tables, events);
      var (st', call) := Step(tables, t.st, bit);
      if call.Some? && |call.value.valid| == |call.value.blocks| == 4 && call.value.valid[0] && call.value.valid[1]
      then st'.station.pi == PiAfter(t.st.station.pi, t.lastPi, t.st.station.groups, call.value.blocks[0])
        && (st'.station.pi == None ==> !st'.acq.synced)
      else st'.station.pi == t.st.station.pi
  {
    hide Verified, Syndrome, Step, Run;
    PiAlways(tables, events);
    var t := Run(tables, events);
    if t.st.acq.synced && t.st.frame.bits + 1 == BLOCK_SIZE {
      StationAfterBlock(tables, t.st, bit);
    } else {
      StationOtherwise(tables, t.st, bit);
    }
  }

  // ---------------------------------------------------------------- acquisition

  /** The offset word, by index, that the window ending at a given time carries; 5 if none. */
  function WordAt(heard: Bits, end: nat): nat
    requires end <= |heard|
  {
    FirstOffset(Syndrome(Window(heard, end)), 0)
  }

  /** The register holds the last 26 bits; in presync the word remembered was really heard, at
      the time remembered. */
  ghost predicate Remembers(t: Trace) {
    && t.st.Shaped() && t.st.shift == Window(t.heard, |t.heard|) && t.st.acq.bitCounter == |t.heard|
    && (t.st.acq.presync ==>
          t.st.acq.lastCounter <= |t.heard| && WordAt(t.heard, t.st.acq.lastCounter) == t.st.acq.lastOffset)
  }

  /** Two offset words end bits apart as far as their positions in the group are, give or take
      two bits. */
  predicate Spaced(first: nat, second: nat, gap: int) {
    first < 5 && second < 5 && Abs(BlockDistance(first, second) * BLOCK_SIZE - gap) <= 2
  }

  /** The distance between two words is one to four blocks, and it leads from the position of
      the first to the position of the second. */
  lemma DistanceLeadsOn(first: nat, second: nat)
    requires first < 5 && second < 5
    ensures 1 <= BlockDistance(first, second) <= 4
    ensures (OFFSET_POS[first] + BlockDistance(first, second)) % 4 == OFFSET_POS[second]
  {
  }

  lemma WordLater(heard: Bits, bit: bool, end: nat)
    requires end <= |heard|
    ensures WordAt(heard + [bit], end) == WordAt(heard, end)
  {
    WindowGrows(heard, bit, end);
  }

  /** Nothing but the search sets presync or sync, or moves the bit counter. */
  lemma BlockKeepsSearch(tables: Tables, st: State)
    requires st.Shaped()
    ensures var r := BlockDone(tables, st).0;
      && r.shift == st.shift && r.acq.bitCounter == st.acq.bitCounter
      && r.acq.lastOffset == st.acq.lastOffset && r.acq.lastCounter == st.acq.lastCounter
      && (r.acq.presync ==> st.acq.presync)
  {
    hide Verified;
  }

  lemma RemembersStep(tables: Tables, t: Trace, e: Event)
    requires Remembers(t)
    ensures Remembers(Next(tables, t, e))
  {
    hide Window, Syndrome, FirstOffset, BlockDone, WordAt;
    match e
    case Bit(bit) =>
      WindowGrows(t.heard, bit, |t.heard|);
      if t.st.acq.presync {
        WordLater(t.heard, bit, t.st.acq.lastCounter);
      }
      BlockKeepsSearch(tables, BitTaken(t.st, bit));
      NewestWord(t, bit);
    case Watchdog(n) =>
    case Reset =>
      RemembersStart();
  }

  lemma NewestWord(t: Trace, bit: bool)
    requires Remembers(t)
    ensures FirstOffset(Syndrome(BitTaken(t.st, bit).shift), 0) == WordAt(t.heard + [bit], |t.heard| + 1)
  {
    hide Syndrome, FirstOffset, Window;
    WindowGrows(t.heard, bit, |t.heard|);
  }

  lemma RemembersStart()
    ensures Remembers(Start())
  {
    assert Window([], 0) == Initial().shift;
  }

  lemma {:induction false} RemembersAlways(tables: Tables, events: seq<Event>)
    ensures Remembers(Run(tables, events))
  {
    hide Remembers, Next;
    if events == [] {
      RemembersStart();
    } else {
      RemembersAlways(tables, events[..|events| - 1]);
      RemembersStep(tables, Run(tables, events[..|events| - 1]), events[|events| - 1]);
    }
  }

  /** Sync is never gained on one word: whenever a bit brings it about, it completes an offset
      word, and an earlier window of the bits heard carried another one, as far back as the
      positions of the two words say. */
  lemma SyncNeedsTwoWords(tables: Tables, events: seq<Event>, bit: bool) returns (end: nat)
    requires !Run(tables, events).st.acq.synced
    requires Step(tables, Run(tables, events).st, bit).0.acq.synced
    ensures var heard := Run(tables, events).heard + [bit];
      end < |heard| && Spaced(WordAt(heard, end), WordAt(heard, |heard|), |heard| - end)
  {
    hide Run, Window, Syndrome, FirstOffset, WordAt, Verified;
    var t := Run(tables, events);
    RemembersAlways(tables, events);
    NewestWord(t, bit);
    end := t.st.acq.lastCounter;
    WordLater(t.heard, bit, end);
  }

  function AsEvents(bits: Bits): seq<Event> {
    seq(|bits|, i requires 0 <= i < |bits| => Bit(bits[i]))
  }

  lemma RunSnoc(tables: Tables, events: seq<Event>, e: Event)
    ensures Run(tables, events + [e]) == Next(tables, Run(tables, events), e)
  {
    assert (events + [e])[..|events|] == events;
  }

  lemma NoWordSeen(tables: Tables, t: Trace, bit: bool)
    requires Remembers(t) && !t.st.acq.synced && WordAt(t.heard + [bit], |t.heard| + 1) == 5
    ensures var t' := Next(tables, t, Bit(bit));
      t'.heard == t.heard + [bit] && t'.st.acq == t.st.acq.(bitCounter := t.st.acq.bitCounter + 1)
  {
    hide Window, Syndrome, FirstOffset, WordAt, Verified;
    NewestWord(t, bit);
  }

  /** While bits without offset words go by, the search stands still. */
  lemma {:induction false} QuietSearch(tables: Tables, events: seq<Event>, bits: Bits)
    requires !Run(tables, events).st.acq.synced
    requires var heard := Run(tables, events).heard;
      forall end :: |heard| < end <= |heard| + |bits| ==> WordAt(heard + bits, end) == 5
    ensures var t, t' := Run(tables, events), Run(tables, events + AsEvents(bits));
      t'.heard == t.heard + bits && t'.st.acq == t.st.acq.(bitCounter := t.st.acq.bitCounter + |bits|)
    decreases |bits|
  {
    hide Window, WordAt, Run, Next;
    var t := Run(tables, events);
    if bits == [] {
      assert events + AsEvents(bits) == events;
      assert t.heard + bits == t.heard;
    } else {
      var n := |bits| - 1;
      var shorter, bit := bits[..n], bits[n];
      assert t.heard + bits == (t.heard + shorter) + [bit];
      forall end | |t.heard| < end <= |t.heard| + n ensures WordAt(t.heard + shorter, end) == 5 {
        WordLater(t.heard + shorter, bit, end);
      }
      QuietSearch(tables, events, shorter);
      assert events + AsEvents(bits) == (events + AsEvents(shorter)) + [Bit(bit)];
      RunSnoc(tables, events + AsEvents(shorter), Bit(bit));
      RemembersAlways(tables, events + AsEvents(shorter));
      NoWordSeen(tables, Run(tables, events + AsEvents(shorter)), bit);
    }
  }

  /** The word just completed is taken note of. */
  lemma FirstWordSeen(tables: Tables, t: Trace, bit: bool)
    requires Remembers(t) && !t.st.acq.synced && !t.st.acq.presync
    requires WordAt(t.heard + [bit], |t.heard| + 1) < 5
    ensures var t' := Next(tables, t, Bit(bit));
      t'.heard == t.heard + [bit] && t'.st.acq.presync && !t'.st.acq.synced
      && t'.st.acq.lastCounter == t'.st.acq.bitCounter == |t'.heard|
      && t'.st.acq.lastOffset == WordAt(t'.heard, |t'.heard|)
  {
    hide Window, Syndrome, FirstOffset, WordAt, Verified;
    NewestWord(t, bit);
  }

  /** The second word decides. */
  lemma SecondWordSeen(tables: Tables, t: Trace, last: bool)
    requires Remembers(t) && !t.st.acq.synced && t.st.acq.presync
    requires WordAt(t.heard + [last], |t.heard| + 1) < 5
    ensures var st := Next(tables, t, Bit(last)).st;
      var second := WordAt(t.heard + [last], |t.heard| + 1);
      && (st.acq.synced <==> Spaced(t.st.acq.lastOffset, second, |t.heard| + 1 - t.st.acq.lastCounter))
      && (st.acq.synced ==> st.frame.number == (second + 1) % 4 && st.frame.bits == 0 && st.frame.valid == NoneValid())
      && (!st.acq.synced ==> !st.acq.presync)
  {
    hide Window, Syndrome, FirstOffset, WordAt, Verified;
    NewestWord(t, last);
  }

  /** The bit completes an offset word, the bits after it but the last complete none, and the
      last completes another. */
  ghost predicate TwoWords(heard: Bits, bit: bool, quiet: Bits, last: bool) {
    var first := heard + [bit];
    var all := first + quiet + [last];
    && WordAt(first, |first|) < 5 && WordAt(all, |all|) < 5
    && forall end :: |first| < end <= |first| + |quiet| ==> WordAt(first + quiet, end) == 5
  }

  /** Acquisition, from a fresh search: when two offset words are heard and none between them,
      sync is gained with the last bit of the second if and only if the two are spaced as their
      positions are; otherwise the search starts afresh. The next block is given the position that
      follows the second word's if and only if that word is A, B or C; after C' and after D the
      blocks are counted one position ahead. */
  lemma SyncGainedExactly(tables: Tables, events: seq<Event>, bit: bool, quiet: Bits, last: bool)
    requires var t := Run(tables, events);
      !t.st.acq.synced && !t.st.acq.presync && TwoWords(t.heard, bit, quiet, last)
    ensures var heard := Run(tables, events).heard;
      var all := heard + [bit] + quiet + [last];
      var second := WordAt(all, |all|);
      var st := Run(tables, events + [Bit(bit)] + AsEvents(quiet) + [Bit(last)]).st;
      && (st.acq.synced <==> Spaced(WordAt(heard + [bit], |heard| + 1), second, |quiet| + 1))
      && (st.acq.synced ==> st.frame.number == (second + 1) % 4 && st.frame.bits == 0 && st.frame.valid == NoneValid())
      && (st.acq.synced ==> (st.frame.number == (OFFSET_POS[second] + 1) % 4 <==> second <= 2))
      && (!st.acq.synced ==> !st.acq.presync)
  {
    hide Run, Next, Spaced, WordAt;
    var t := Run(tables, events);
    RemembersAlways(tables, events);
    FirstWordSeen(tables, t, bit);
    RunSnoc(tables, events, Bit(bit));
    var events1 := events + [Bit(bit)];
    QuietSearch(tables, events1, quiet);
    var events2 := events1 + AsEvents(quiet);
    RemembersAlways(tables, events2);
    SecondWordSeen(tables, Run(tables, events2), last);
    RunSnoc(tables, events2, Bit(last));
  }
}
