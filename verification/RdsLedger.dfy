/** What the RDS synchroniser's counters count, told from the outside: by what was heard and what
    became of sync and PI code, never by the counters themselves. */
module RdsLedger {
  import opened Options
  import opened Words
  import opened RdsSyndrome
  import opened RdsBlock
  import opened RdsSync
  import opened RdsRuns

  /** A run so far, with the groups that had a valid block B, the blocks, and the bad ones among them
      since sync was last lost, the station last changed, or the decoder was reset; and the bits of
      the chunks that ended without sync since the watchdog last fired or found sync. */
  datatype Ledger = Ledger(t: Trace, groups: nat, total: nat, bad: nat, waited: nat)

  function Opened(): Ledger {
    Ledger(Start(), 0, 0, 0, 0)
  }

  predicate Lost(t: Trace, t': Trace) {
    t.st.acq.synced && !t'.st.acq.synced
  }

  /** Another PI code took the place of one held. */
  predicate Changed(t: Trace, t': Trace) {
    t.st.station.pi.Some? && t'.st.station.pi.Some? && t.st.station.pi != t'.st.station.pi
  }

  predicate HasB(call: Option<Call>) {
    call.Some? && |call.value.valid| == 4 && call.value.valid[1]
  }

  function After(tables: Tables, l: Ledger, e: Event): Ledger
    requires l.t.st.Shaped()
    ensures After(tables, l, e).t == Next(tables, l.t, e)
  {
    var t' := Next(tables, l.t, e);
    match e
    case Bit(bit) =>
      var done := Outcome(tables, l.t.st, bit);
      if Lost(l.t, t') then Ledger(t', 0, 0, 0, l.waited)
      else if Changed(l.t, t') then Ledger(t', 1, 0, 0, l.waited)
      else Ledger(t', l.groups + (if HasB(Step(tables, l.t.st, bit).1) then 1 else 0),
                  l.total + |done|, l.bad + Bad(done), l.waited)
    case Watchdog(n) =>
      l.(t := t', waited := if l.t.st.acq.synced || l.waited + n >= 750 then 0 else l.waited + n)
    case Reset => Opened()
  }

  function Kept(tables: Tables, events: seq<Event>): (l: Ledger)
    ensures l.t == RdsRuns.Run(tables, events)
  {
    if events == [] then Opened() else After(tables, Kept(tables, events[..|events| - 1]), events[|events| - 1])
  }

  // ---------------------------------------------------------------- the counters

  /** The outcomes of the window of forty in progress. */
  function Recent(o: seq<bool>): seq<bool> {
    o[|o| - |o| % 40..]
  }

  ghost predicate Right(l: Ledger) {
    var st := l.t.st;
    && st.station.groups == l.groups && st.station.total == l.total && st.station.uncorrectable == l.bad
    && st.acq.watchdogBits == l.waited
    && (st.acq.synced ==> st.quality.wrong == Bad(Recent(l.t.outcomes)))
  }

  /** The station's counters after the end of a block, before the sync is judged. */
  lemma CountedBlock(st: State, data: Data, ok: bool)
    requires st.Shaped()
    ensures var st1 := Recorded(st, data, ok);
      var g := Grouped(st1);
      var counted := st.frame.number == 3 && st1.frame.valid[1];
      && |st1.frame.valid| == |st1.frame.blocks| == 4
      && g.acq.watchdogBits == st.acq.watchdogBits
      && (!g.acq.synced && st.acq.synced ==> !g.acq.presync && g.acq.nudges == 1)
      && (!g.acq.synced && st.acq.synced ==> g.station.groups == g.station.total == g.station.uncorrectable == 0)
      && (g.acq.synced && st.station.pi.Some? && g.station.pi != st.station.pi ==>
            g.station.pi.Some? && g.station.groups == 1 && g.station.total == g.station.uncorrectable == 0)
      && (g.acq.synced && (st.station.pi.None? || g.station.pi == st.station.pi) ==>
            && g.station.groups == st.station.groups + (if counted then 1 else 0)
            && g.station.total == st.station.total + 1
            && g.station.uncorrectable == st.station.uncorrectable + (if ok then 0 else 1))
  {
  }

  lemma JudgedCounts(st: State)
    ensures var j := Judged(st);
      && j.acq.watchdogBits == st.acq.watchdogBits && j.station.pi == st.station.pi
      && (j.acq.synced ==> j.station == st.station)
      && (st.acq.synced && !j.acq.synced ==> j.station.groups == j.station.total == j.station.uncorrectable == 0)
      && (st.acq.synced && !j.acq.synced ==> !j.acq.presync && j.quality == Quality(0, 0, 0) && j.acq.nudges == 1)
      && (!st.acq.synced ==> !j.acq.synced)
      && (!st.acq.synced && st.quality == Quality(0, 0, 0) ==> j == st)
  {
  }

  /** A window of forty, one block longer. */
  lemma RecentSnoc(o: seq<bool>, bad: bool)
    ensures var o' := o + [bad];
      && (|o'| % 40 != 0 ==> Recent(o') == Recent(o) + [bad])
      && (|o'| % 40 == 0 ==> |o'| >= 40 && o'[|o'| - 40..] == Recent(o) + [bad] && Recent(o') == [])
  {
    WindowCount(|o| + 1, |o| % 40 + 1);
    var more := o + [bad];
    assert o == more[..|o|];
    if |more| % 40 != 0 {
      assert more[|more| - |more| % 40..] == o[|o| - |o| % 40..] + [bad];
    } else {
      assert more[|more| - 40..] == o[|o| - |o| % 40..] + [bad];
    }
  }

  /** The bad blocks of the window in progress, this one included. */
  function WindowBad(o: seq<bool>): nat {
    if |o| >= 40 && |o| % 40 == 0 then Bad(o[|o| - 40..]) else Bad(Recent(o))
  }

  lemma WindowSnoc(o: seq<bool>, bad: bool)
    ensures WindowBad(o + [bad]) == Bad(Recent(o)) + (if bad then 1 else 0)
  {
    hide Bad;
    RecentSnoc(o, bad);
    SnocCounts(Recent(o), bad);
  }

  /** A different PI code before four groups are in. */
  predicate Conflicts(l: Ledger, call: Option<Call>) {
    && call.Some? && |call.value.valid| == |call.value.blocks| == 4 && call.value.valid[0] && call.value.valid[1]
    && l.t.st.station.pi.Some? && l.t.st.station.pi != Some(call.value.blocks[0]) && l.groups < 4
  }

  lemma ConflictDrops(st: State, data: Data, ok: bool, l: Ledger)
    requires st.Shaped() && st.acq.synced && st.station.groups == l.groups && st.station.pi == l.t.st.station.pi
    ensures var st1 := Recorded(st, data, ok);
      var call := if st.frame.number == 3 then Some(Call(st1.frame.blocks, st1.frame.valid)) else None;
      !Grouped(st1).acq.synced <==> Conflicts(l, call)
  {
  }

  /** The end of a block: the counters stay right, and sync is lost for one of three reasons. */
  lemma BlockRight(tables: Tables, l: Ledger, bit: bool)
    requires Right(l) && Steady(l.t) && l.t.st.Shaped() && l.t.st.acq.synced && l.t.st.frame.bits + 1 == BLOCK_SIZE
    ensures Right(After(tables, l, Bit(bit)))
    ensures var o := l.t.outcomes + Outcome(tables, l.t.st, bit);
      var (st', call) := Step(tables, l.t.st, bit);
      |Outcome(tables, l.t.st, bit)| == 1
      && (!st'.acq.synced <==>
            Conflicts(l, call) || TrailingBad(o) >= 10 || (|o| % 40 == 0 && WindowBad(o) > 16))
      && (!st'.acq.synced ==> !st'.acq.presync && st'.quality == Quality(0, 0, 0) && st'.acq.nudges == 1)
  {
    hide Verified, Judged, NoTenBad, Bad, TrailingBad, Grouped, Recorded, Step, TableInUse, Recent, WindowBad;
    var t := l.t;
    var st0 := BitTaken(t.st, bit);
    var (data, ok) := Verified(st0.shift, t.st.frame.number, TableInUse(tables, t.st));
    BlockStep(tables, t.st, bit, data, ok);
    var g := Grouped(Recorded(st0, data, ok));
    CountedBlock(st0, data, ok);
    ConflictDrops(st0, data, ok, l);
    RecordedQuality(st0, data, ok);
    JudgedCounts(g);
    var o := t.outcomes + [!ok];
    SnocCounts(t.outcomes, !ok);
    WindowSnoc(t.outcomes, !ok);
    RecentSnoc(t.outcomes, !ok);
    OneBad(!ok);
    if g.acq.synced {
      WindowCount(|o|, g.quality.blocks);
      JudgedByCount(g);
      WindowIs(o);
    }
  }

  lemma OneBad(bad: bool)
    ensures Bad([bad]) == (if bad then 1 else 0) && Bad([]) == 0
  {
  }

  lemma WindowIs(o: seq<bool>)
    ensures |o| % 40 != 0 ==> WindowBad(o) == Bad(Recent(o))
  {
  }

  /** Bits inside a block touch no counter. */
  lemma InsideRight(tables: Tables, l: Ledger, bit: bool)
    requires Right(l) && l.t.st.Shaped() && l.t.st.acq.synced && l.t.st.frame.bits + 1 < BLOCK_SIZE
    ensures Right(After(tables, l, Bit(bit))) && Step(tables, l.t.st, bit).0.acq.synced
  {
    hide Verified, Step, Bad, Recent;
    InsideStep(tables, l.t.st, bit);
    assert Bad([]) == 0 by { OneBad(false); }
    assert l.t.outcomes + [] == l.t.outcomes;
  }

  lemma SearchStep(tables: Tables, st: State, bit: bool)
    requires st.Shaped() && !st.acq.synced
    ensures Step(tables, st, bit)
         == (Searched(BitTaken(st, bit), FirstOffset(Syndrome(BitTaken(st, bit).shift), 0)), None)
  {
    hide Searched, FirstOffset, Syndrome;
  }

  /** Nor do bits heard while searching; and when sync is gained no outcome is on record. */
  lemma SearchRight(tables: Tables, l: Ledger, bit: bool)
    requires Right(l) && Steady(l.t) && l.t.st.Shaped() && !l.t.st.acq.synced
    ensures Right(After(tables, l, Bit(bit)))
  {
    hide Verified, Step, Bad, TrailingBad, NoTenBad, Searched, FirstOffset, Syndrome;
    SearchStep(tables, l.t.st, bit);
    StationOtherwise(tables, l.t.st, bit);
    var st0 := BitTaken(l.t.st, bit);
    SearchQuality(st0, FirstOffset(Syndrome(st0.shift), 0));
    assert Bad([]) == 0 by { OneBad(false); }
    assert Recent([]) == [];
  }

  lemma SearchQuality(st: State, j: nat)
    requires st.Shaped() && j <= 5 && !st.acq.synced
    ensures var r := Searched(st, j);
      (r.acq.synced ==> r.quality.wrong == 0) && r.acq.watchdogBits == st.acq.watchdogBits
  {
  }

  lemma RightStep(tables: Tables, l: Ledger, e: Event)
    requires Right(l) && Steady(l.t) && l.t.st.Shaped()
    ensures Right(After(tables, l, e))
  {
    hide Verified, Syndrome, Step, Bad, TrailingBad, NoTenBad;
    match e
    case Bit(bit) =>
      if l.t.st.acq.synced && l.t.st.frame.bits + 1 == BLOCK_SIZE {
        BlockRight(tables, l, bit);
      } else if l.t.st.acq.synced {
        InsideRight(tables, l, bit);
      } else {
        SearchRight(tables, l, bit);
      }
    case Watchdog(n) =>
    case Reset =>
  }

  lemma {:induction false} RightAlways(tables: Tables, events: seq<Event>)
    ensures Right(Kept(tables, events))
  {
    hide Right, After;
    if events == [] {
      assert Right(Opened()) by { RightOpened(); }
    } else {
      RightAlways(tables, events[..|events| - 1]);
      SteadyAlways(tables, events[..|events| - 1]);
      RightStep(tables, Kept(tables, events[..|events| - 1]), events[|events| - 1]);
    }
  }

  lemma RightOpened()
    ensures Right(Opened())
  {
  }

  // ---------------------------------------------------------------- what depends on them

  /** The counters count what they are said to: groups with a valid block B, blocks, and bad blocks,
      since sync was lost, the station changed, or the decoder was reset, in every reachable state. */
  lemma CountersExactly(tables: Tables, events: seq<Event>)
    ensures var l := Kept(tables, events);
      var s := l.t.st.station;
      s.groups == l.groups && s.total == l.total && s.uncorrectable == l.bad
  {
    hide Kept;
    RightAlways(tables, events);
  }

  /** The PI code over whole runs: it changes at calls of the group decoder with valid blocks A and B
      and at no other bit, and then to what the codes heard and the groups counted say; when it is
      forgotten, sync is lost with it. */
  lemma PiChangesExactly(tables: Tables, events: seq<Event>, bit: bool)
    ensures var l := Kept(tables, events);
      var t := l.t;
      var (st', call) := Step(tables, t.st, bit);
      if call.Some? && |call.value.valid| == |call.value.blocks| == 4 && call.value.valid[0] && call.value.valid[1]
      then st'.station.pi == PiAfter(t.st.station.pi, t.lastPi, l.groups, call.value.blocks[0])
        && (t.st.station.pi.Some? && st'.station.pi == None ==> !st'.acq.synced)
      else st'.station.pi == t.st.station.pi
  {
    hide Step, Kept, Bad, TrailingBad, NoTenBad, RdsRuns.Run;
    RightAlways(tables, events);
    PiDecided(tables, events, bit);
  }

  /** Sync is lost exactly at the end of a block, for one of three reasons: a different PI code before
      four groups are in, ten bad blocks in a row, or a full window of forty with more than sixteen
      bad ones. The search then starts afresh, with the timing nudged once. */
  lemma SyncLostExactly(tables: Tables, events: seq<Event>, bit: bool)
    requires RdsRuns.Run(tables, events).st.acq.synced
    ensures var l := Kept(tables, events);
      var done := Outcome(tables, l.t.st, bit);
      var o := l.t.outcomes + done;
      var (st', call) := Step(tables, l.t.st, bit);
      !st'.acq.synced <==>
        done != [] && (Conflicts(l, call) || TrailingBad(o) >= 10 || (|o| % 40 == 0 && WindowBad(o) > 16))
    ensures var st' := Step(tables, Kept(tables, events).t.st, bit).0;
      !st'.acq.synced ==> !st'.acq.presync && st'.quality == Quality(0, 0, 0) && st'.acq.nudges == 1
  {
    hide Step, Kept, Bad, TrailingBad, NoTenBad, RdsRuns.Run, WindowBad;
    RightAlways(tables, events);
    SteadyAlways(tables, events);
    var l := Kept(tables, events);
    if l.t.st.frame.bits + 1 == BLOCK_SIZE {
      BlockRight(tables, l, bit);
    } else {
      InsideRight(tables, l, bit);
    }
  }

  /** The watchdog over whole runs: after 750 bits in chunks that ended without sync it nudges the
      timing and starts the search afresh; before that, and while synchronised, it does neither. */
  lemma WatchdogExactly(tables: Tables, events: seq<Event>, n: nat)
    ensures var l := Kept(tables, events);
      var q, q' := l.t.st.acq, Watched(l.t.st, n).acq;
      var fires := !q.synced && l.waited + n >= 750;
      && q'.nudges == (if fires then (q.nudges + 1) % 4 else q.nudges)
      && q'.presync == (q.presync && !fires) && q'.synced == q.synced
      && Watched(l.t.st, n) == l.t.st.(acq := q')
  {
    hide Kept, Bad, TrailingBad, NoTenBad, RdsRuns.Run;
    RightAlways(tables, events);
    SteadyAlways(tables, events);
  }
}
