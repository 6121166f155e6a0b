/** The RDS block synchroniser: acquisition on two offset words, block counting, freshness of
    the blocks of a group, loss of synchronisation, and the handling of the PI code. */
module RdsSync {
  import opened Options
  import opened Words
  import opened RdsSyndrome
  import opened RdsBlock

  const BLOCK_SIZE := 26

  // Offset words in the order they are searched, and the position each belongs to.
  function Syndromes(): (r: seq<Syn>)
    ensures |r| == 5
  {
    [OffsetA(), OffsetB(), OffsetC(), OffsetC2(), OffsetD()]
  }

  const OFFSET_POS: seq<nat> := [0, 1, 2, 2, 3]

  /** The two error tables: one for use before a PI code is known, one for after. */
  datatype Tables = Tables(plain: Table, aggressive: Table)

  /** Acquisition: position in the bit stream, the offset word seen last, and the watchdog. */
  datatype Acquisition = Acquisition(synced: bool, presync: bool, lastOffset: nat, lastCounter: nat,
                                     bitCounter: nat, watchdogBits: nat, nudges: nat)

  /** The block being received, and the group so far. */
  datatype Frame = Frame(bits: nat, number: nat, blocks: seq<Data>, valid: seq<bool>)
  {
    predicate Shaped() {
      bits < BLOCK_SIZE && number < 4 && |blocks| == 4 && |valid| == 4
    }
  }

  /** Bad blocks and blocks in the current window, and bad blocks in a row. */
  datatype Quality = Quality(wrong: nat, blocks: nat, consecutive: nat)

  datatype Station = Station(pi: Option<Data>, candidate: Option<Data>,
                             groups: nat, total: nat, uncorrectable: nat)

  datatype State = State(shift: Block, acq: Acquisition, frame: Frame, quality: Quality, station: Station)
  {
    predicate Shaped() {
      acq.lastOffset < 5 && frame.Shaped()
    }
  }

  /** A call of the group decoder: the blocks, and which of them it may read. */
  datatype Call = Call(blocks: seq<Data>, valid: seq<bool>)

  function NoData(): Data {
    seq(16, _ => false)
  }

  function Initial(): (st: State)
    ensures st.Shaped()
  {
    State(seq(26, _ => false), Acquisition(false, false, 0, 0, 0, 0, 0),
          Frame(0, 0, [NoData(), NoData(), NoData(), NoData()], NoneValid()),
          Quality(0, 0, 0), Station(None, None, 0, 0, 0))
  }

  function NoneValid(): seq<bool> {
    [false, false, false, false]
  }

  // ---------------------------------------------------------------- one step, as a function

  /** _sync_drop, with the timing nudge it ends in. */
  function SyncDropped(st: State): State {
    st.(acq := st.acq.(synced := false, presync := false, nudges := 1),
        quality := Quality(0, 0, 0),
        station := st.station.(groups := 0, total := 0, uncorrectable := 0))
  }

  function Cleared(st: State): State {
    st.(station := Station(None, None, 0, 0, 0))
  }

  /** The part of _decode_group that decides about the PI code. */
  function GroupDecoded(st: State, call: Call): State
    requires |call.blocks| == 4 && |call.valid| == 4
  {
    var s := st.station;
    if !call.valid[1] then st
    else if !call.valid[0] then st.(station := s.(groups := s.groups + 1))
    else
      var a := call.blocks[0];
      if s.pi == None then st.(station := s.(pi := Some(a), groups := s.groups + 1))
      else if s.pi == Some(a) then st.(station := s.(candidate := None, groups := s.groups + 1))
      else if s.groups < 4 then Cleared(SyncDropped(st))
      else if s.candidate == Some(a) then st.(station := Station(Some(a), None, 1, 0, 0))
      else st.(station := s.(candidate := Some(a), groups := s.groups + 1))
  }

  /** The first offset word, from index j on, that the syndrome equals. */
  function FirstOffset(syndrome: Syn, j: nat): (r: nat)
    requires j <= 5
    ensures j <= r <= 5
    decreases 5 - j
  {
    if j == 5 || syndrome == Syndromes()[j] then j else FirstOffset(syndrome, j + 1)
  }

  function BlockDistance(last: nat, current: nat): int
    requires last < 5 && current < 5
  {
    var lastPos, currPos := OFFSET_POS[last], OFFSET_POS[current];
    if lastPos >= currPos then currPos + 4 - lastPos else currPos - lastPos
  }

  function Abs(x: int): int {
    if x < 0 then -x else x
  }

  /** Searching: offset word j (5 if none) has just been seen. */
  function Searched(st: State, j: nat): (r: State)
    requires st.Shaped() && j <= 5
    ensures r.Shaped()
  {
    var q := st.acq;
    if j == 5 then st
    else if !q.presync then st.(acq := q.(lastOffset := j, lastCounter := q.bitCounter, presync := true))
    else if Abs(BlockDistance(q.lastOffset, j) * BLOCK_SIZE - (q.bitCounter - q.lastCounter)) <= 2 then
      st.(acq := q.(synced := true), frame := Frame(0, (j + 1) % 4, st.frame.blocks, NoneValid()),
          quality := Quality(0, 0, st.quality.consecutive))
    else st.(acq := q.(presync := false))
  }

  function TableInUse(tables: Tables, st: State): Table {
    if st.station.pi.Some? then tables.aggressive else tables.plain
  }

  /** A whole block has arrived: record what verification says of it. */
  function Recorded(st: State, data: Data, ok: bool): (r: State)
    requires st.Shaped()
    ensures r.Shaped()
  {
    var f, q, s := st.frame, st.quality, st.station;
    if ok then st.(frame := Frame(0, f.number, f.blocks[f.number := data], f.valid[f.number := true]),
                   quality := Quality(q.wrong, q.blocks + 1, 0),
                   station := s.(total := s.total + 1))
    else st.(frame := Frame(0, f.number, f.blocks, f.valid[f.number := false]),
             quality := Quality(q.wrong + 1, q.blocks + 1, q.consecutive + 1),
             station := s.(total := s.total + 1, uncorrectable := s.uncorrectable + 1))
  }

  /** After block 3 the group is decoded and its blocks are stale from then on. */
  function Grouped(st: State): (r: State)
    requires st.Shaped()
    ensures r.Shaped()
  {
    if st.frame.number == 3 then
      var g := GroupDecoded(st, Call(st.frame.blocks, st.frame.valid));
      g.(frame := Frame(st.frame.bits, 0, st.frame.blocks, NoneValid()))
    else st.(frame := st.frame.(number := st.frame.number + 1))
  }

  /** Sync is given up after ten bad blocks in a row, or over 40 % bad in a window of forty. */
  function Judged(st: State): (r: State)
    ensures st.Shaped() ==> r.Shaped()
  {
    var q := st.quality;
    if q.consecutive >= 10 then SyncDropped(st)
    else if q.blocks >= 40 then
      if q.wrong as real / q.blocks as real > 0.40 then SyncDropped(st)
      else st.(quality := Quality(0, 0, q.consecutive))
    else st
  }

  function BlockDone(tables: Tables, st: State): (r: (State, Option<Call>))
    requires st.Shaped()
    ensures r.0.Shaped()
  {
    var (data, ok) := Verified(st.shift, st.frame.number, TableInUse(tables, st));
    var st1 := Recorded(st, data, ok);
    (Judged(Grouped(st1)),
     if st.frame.number == 3 then Some(Call(st1.frame.blocks, st1.frame.valid)) else None)
  }

  function BitTaken(st: State, bit: bool): State {
    st.(shift := [bit] + st.shift[..25], acq := st.acq.(bitCounter := st.acq.bitCounter + 1))
  }

  /** One bit: the next state, and the group call it leads to, if any. */
  function Step(tables: Tables, st: State, bit: bool): (r: (State, Option<Call>))
    requires st.Shaped()
    ensures r.0.Shaped()
  {
    var st0 := BitTaken(st, bit);
    if !st.acq.synced then (Searched(st0, FirstOffset(Syndrome(st0.shift), 0)), None)
    else if st.frame.bits + 1 == BLOCK_SIZE then BlockDone(tables, st0)
    else (st0.(frame := st0.frame.(bits := st.frame.bits + 1)), None)
  }

  /** The watchdog that runs after every chunk of n bits. */
  function Watched(st: State, n: nat): State {
    var q := st.acq;
    if q.synced then st.(acq := q.(watchdogBits := 0))
    else
      var bits := q.watchdogBits + n;
      var limit := if q.nudges < 4 then 750 else 3000;
      if bits < limit then st.(acq := q.(watchdogBits := bits))
      else st.(acq := q.(watchdogBits := 0, presync := false, nudges := (q.nudges + 1) % 4))
  }

  // ---------------------------------------------------------------- the decoder object

  /** The decoder's fields, grouped by what they serve. */
  class RDSDecoder {
    const tables: Tables
    var shiftReg: Block
    var acq: Acquisition
    var frame: Frame
    var quality: Quality
    var station: Station

    function Abstract(): State
      reads this
    {
      State(shiftReg, acq, frame, quality, station)
    }

    constructor (tables: Tables)
      ensures Abstract() == Initial() && this.tables == tables
    {
      this.tables := tables;
      shiftReg := seq(26, _ => false);
      acq := Acquisition(false, false, 0, 0, 0, 0, 0);
      frame := Frame(0, 0, [NoData(), NoData(), NoData(), NoData()], NoneValid());
      quality := Quality(0, 0, 0);
      station := Station(None, None, 0, 0, 0);
    }

    method SyncDrop()
      modifies this`acq, this`station, this`quality
      ensures Abstract() == SyncDropped(old(Abstract()))
    {
      acq := acq.(synced := false, presync := false);
      station := station.(groups := 0, total := 0, uncorrectable := 0);
      quality := Quality(0, 0, 0);
      acq := acq.(nudges := 0);
      acq := acq.(nudges := (acq.nudges + 1) % 4);
    }

    method ClearDecodedData()
      modifies this`station
      ensures Abstract() == Cleared(old(Abstract()))
    {
      station := station.(pi := None, candidate := None);
      station := station.(groups := 0, total := 0, uncorrectable := 0);
    }

    method DecodeGroup(blocks: seq<Data>, valid: seq<bool>)
      requires |blocks| == 4 && |valid| == 4
      modifies this`acq, this`station, this`quality
      ensures Abstract() == GroupDecoded(old(Abstract()), Call(blocks, valid))
    {
      if !valid[1] {
        return;
      }
      if valid[0] {
        var a := blocks[0];
        if station.pi == None {
          station := station.(pi := Some(a));
        } else if station.pi != Some(a) {
          if station.groups < 4 {
            SyncDrop();
            ClearDecodedData();
            return;
          }
          if station.candidate == Some(a) {
            ClearDecodedData();
            station := station.(pi := Some(a));
          } else {
            station := station.(candidate := Some(a));
          }
        } else {
          station := station.(candidate := None);
        }
      }
      station := station.(groups := station.groups + 1);
    }

    /** The search loop over the offset words, taken while not synchronised. */
    method Search()
      requires Abstract().Shaped()
      modifies this`acq, this`frame, this`quality
      ensures Abstract() == Searched(old(Abstract()), FirstOffset(Syndrome(old(shiftReg)), 0))
    {
      hide Syndrome, OffsetA, OffsetB, OffsetC, OffsetC2, OffsetD;
      var syndrome := CalcSyndrome(shiftReg);
      for j := 0 to 5
        invariant Abstract() == old(Abstract())
        invariant FirstOffset(syndrome, 0) == FirstOffset(syndrome, j)
      {
        if syndrome == Syndromes()[j] {
          if !acq.presync {
            acq := acq.(lastOffset := j, lastCounter := acq.bitCounter, presync := true);
          } else {
            var lastPos, currPos := OFFSET_POS[acq.lastOffset], OFFSET_POS[j];
            var blockDistance := if lastPos >= currPos then currPos + 4 - lastPos else currPos - lastPos;
            var expectedBits := blockDistance * BLOCK_SIZE;
            var actualBits := acq.bitCounter - acq.lastCounter;
            if Abs(expectedBits - actualBits) <= 2 {
              acq := acq.(synced := true);
              frame := Frame(0, (j + 1) % 4, frame.blocks, NoneValid());
              quality := quality.(wrong := 0, blocks := 0);
            } else {
              acq := acq.(presync := false);
            }
          }
          return;
        }
      }
    }

    /** Counts the block and notes whether it could be verified. */
    method RecordBlock(data: Data, ok: bool)
      requires Abstract().Shaped()
      modifies this`frame, this`quality, this`station
      ensures Abstract() == Recorded(old(Abstract()), data, ok)
    {
      frame := frame.(bits := 0);
      station := station.(total := station.total + 1);
      quality := quality.(blocks := quality.blocks + 1);
      if ok {
        frame := frame.(blocks := frame.blocks[frame.number := data], valid := frame.valid[frame.number := true]);
        quality := quality.(consecutive := 0);
      } else {
        frame := frame.(valid := frame.valid[frame.number := false]);
        quality := quality.(wrong := quality.wrong + 1, consecutive := quality.consecutive + 1);
        station := station.(uncorrectable := station.uncorrectable + 1);
      }
    }

    method JudgeSync()
      modifies this`acq, this`quality, this`station
      ensures Abstract() == Judged(old(Abstract()))
    {
      if quality.consecutive >= 10 {
        SyncDrop();
      } else if quality.blocks >= 40 {
        if quality.wrong as real / quality.blocks as real > 0.40 {
          SyncDrop();
        } else {
          quality := quality.(wrong := 0, blocks := 0);
        }
      }
    }

    /** The end of a block: verify, decode the group if it is complete, judge the sync. */
    method FinishBlock() returns (call: Option<Call>)
      requires Abstract().Shaped()
      modifies this
      ensures (Abstract(), call) == BlockDone(tables, old(Abstract()))
    {
      hide Verified, Recorded, GroupDecoded, Judged;
      call := None;
      var data, ok := VerifyBlock(shiftReg, frame.number, if station.pi.Some? then tables.aggressive else tables.plain);
      RecordBlock(data, ok);
      assert frame.number == old(frame.number) by { RecordedNumber(old(Abstract()), data, ok); }
      if frame.number == 3 {
        call := Some(Call(frame.blocks, frame.valid));
        DecodeGroup(frame.blocks, frame.valid);
        frame := frame.(valid := NoneValid());
      }
      frame := frame.(number := (frame.number + 1) % 4);
      JudgeSync();
    }

    method ProcessBit(bit: bool) returns (call: Option<Call>)
      requires Abstract().Shaped()
      modifies this
      ensures (Abstract(), call) == Step(tables, old(Abstract()), bit)
    {
      hide Syndrome, BlockDone, Searched, FirstOffset;
      call := None;
      acq := acq.(bitCounter := acq.bitCounter + 1);
      shiftReg := [bit] + shiftReg[..25];
      if !acq.synced {
        Search();
      } else if frame.bits + 1 == BLOCK_SIZE {
        call := FinishBlock();
      } else {
        frame := frame.(bits := frame.bits + 1);
      }
    }

    method CheckSyncWatchdog(nBits: nat)
      modifies this`acq
      ensures Abstract() == Watched(old(Abstract()), nBits)
    {
      if acq.synced {
        acq := acq.(watchdogBits := 0);
        return;
      }
      acq := acq.(watchdogBits := acq.watchdogBits + nBits);
      var limit := if acq.nudges < 4 then 750 else 3000;
      if acq.watchdogBits < limit {
        return;
      }
      acq := acq.(nudges := (acq.nudges + 1) % 4);
      acq := acq.(presync := false, watchdogBits := 0);
    }
  }

  lemma RecordedNumber(st: State, data: Data, ok: bool)
    requires st.Shaped()
    ensures Recorded(st, data, ok).frame.number == st.frame.number
  {
  }
}
