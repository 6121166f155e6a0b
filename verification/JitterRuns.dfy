/** The jitter buffer as a monitor: one atomic step per critical section, in any order. The
    producer thread, any number of readers, and the threads that reconfigure, start and stop it
    take turns under one lock; a run is any sequence of their steps. */
module JitterRuns {
  import opened Options
  import opened ByteRing

  /** What the buffer can be in error with: an exception of the producer, or the end of input. */
  datatype Failure = ProducerRaised(code: int) | EndOfInput

  datatype Buffer = Buffer(content: seq<Byte>, capacity: nat, prime: nat, underflow: nat,
                           filling: bool, rebuffers: nat, error: Option<Failure>, stopped: bool,
                           seconds: real, rate: real)

  datatype Outcome = Data(bytes: seq<Byte>) | Wait | Raised(failure: Failure) | Closed | TooLarge | Negative

  datatype Event =
    | Produced(chunk: seq<Byte>)      // a chunk of the producer, empty at the end of input
    | ProducerFailed(code: int)
    | Read(count: nat)                // one pass of a reader through its loop
    | Reconfigure(seconds: real, rate: real)
    | Start
    | Stop

  // ---------------------------------------------------------------- watermarks

  /** Truncation toward zero. */
  function Truncate(x: real): int {
    if x >= 0.0 then x.Floor else -((-x).Floor)
  }

  function Max(a: int, b: int): int {
    if a < b then b else a
  }

  function CapacityFor(bytes: real): nat {
    Max(Truncate(2.0 * bytes), 0)
  }

  function PrimeFor(bytes: real): nat {
    if CapacityFor(bytes) > 0 then Max(Truncate(bytes), 1) else 0
  }

  function UnderflowFor(prime: nat): nat {
    if prime > 0 then Max(Truncate(0.5 * prime as real), 1) else 0
  }

  lemma WatermarksOrdered(bytes: real)
    ensures UnderflowFor(PrimeFor(bytes)) <= PrimeFor(bytes) <= CapacityFor(bytes)
    ensures CapacityFor(bytes) > 0 ==> UnderflowFor(PrimeFor(bytes)) >= 1
  {
  }

  // ---------------------------------------------------------------- the steps

  function Created(): Buffer {
    Buffer([], 0, 0, 0, true, 0, None, false, 0.0, 0.0)
  }

  /** Bytes in so many seconds. */
  function BytesIn(seconds: real, rate: real, bytesPerSample: int): real {
    seconds * (rate * bytesPerSample as real)
  }

  function Reconfigured(b: Buffer, seconds: real, rate: real, bytesPerSample: int): Buffer {
    var bytes := BytesIn(seconds, rate, bytesPerSample);
    var capacity, prime := CapacityFor(bytes), PrimeFor(bytes);
    var underflow := UnderflowFor(prime);
    var content := if capacity == b.capacity then b.content else Last(b.content, capacity);
    b.(content := content, capacity := capacity, prime := prime, underflow := underflow,
       filling := b.filling || |content| < underflow, seconds := seconds, rate := rate)
  }

  /** A chunk arrives: dropped if stopped, an error if empty, else appended. */
  function Filled(b: Buffer, chunk: seq<Byte>): Buffer {
    if chunk == [] then b.(error := Some(EndOfInput))
    else if b.stopped then b
    else b.(content := Last(b.content + chunk, b.capacity))
  }

  function Restarted(b: Buffer): Buffer {
    b.(stopped := false, error := None, filling := true, content := [], rebuffers := 0)
  }

  /** What is checked once, before a reader starts to wait. */
  function Entry(b: Buffer, count: int): Option<Outcome> {
    if count == 0 then Some(Data([]))
    else if count < 0 then Some(Negative)
    else if count > b.capacity then Some(TooLarge)
    else None
  }

  /** One pass of a reader through its loop. */
  function Pass(b: Buffer, count: nat): (Buffer, Outcome) {
    if b.error.Some? then (b, Raised(b.error.value))
    else if b.stopped then (b, Closed)
    else if b.filling && |b.content| < b.prime then (b, Wait)
    else if |b.content| >= count then
      var rest := b.content[count..];
      var low := |rest| < b.underflow;
      (b.(content := rest, filling := low, rebuffers := b.rebuffers + (if low then 1 else 0)),
       Data(b.content[..count]))
    else (b.(filling := false), Wait)
  }

  function Step(b: Buffer, e: Event, bytesPerSample: int): Buffer {
    match e
    case Produced(chunk) => Filled(b, chunk)
    case ProducerFailed(code) => b.(error := Some(ProducerRaised(code)))
    case Read(count) => Pass(b, count).0
    case Reconfigure(seconds, rate) => Reconfigured(b, seconds, rate, bytesPerSample)
    case Start => Restarted(b)
    case Stop => b.(stopped := true)
  }

  function Run(b: Buffer, events: seq<Event>, bytesPerSample: int): Buffer {
    if events == [] then b
    else Step(Run(b, events[..|events| - 1], bytesPerSample), events[|events| - 1], bytesPerSample)
  }

  // ---------------------------------------------------------------- the invariant

  ghost predicate Sound(b: Buffer) {
    && |b.content| <= b.capacity
    && b.underflow <= b.prime <= b.capacity
    && (!b.filling ==> |b.content| >= b.underflow)
  }

  lemma StepSound(b: Buffer, e: Event, bytesPerSample: int)
    requires Sound(b)
    ensures Sound(Step(b, e, bytesPerSample))
  {
    match e
    case Reconfigure(seconds, rate) =>
      WatermarksOrdered(seconds * (rate * bytesPerSample as real));
    case _ =>
  }

  /** In every reachable state the watermarks are ordered, the contents fit, and a buffer that is
      not filling holds at least the underflow target. */
  lemma {:induction false} AlwaysSound(b: Buffer, events: seq<Event>, bytesPerSample: int)
    requires Sound(b)
    ensures Sound(Run(b, events, bytesPerSample))
  {
    hide Step, Sound;
    if events != [] {
      AlwaysSound(b, events[..|events| - 1], bytesPerSample);
      StepSound(Run(b, events[..|events| - 1], bytesPerSample), events[|events| - 1], bytesPerSample);
    }
  }

  // ---------------------------------------------------------------- nothing duplicated, nothing reordered

  /** A delivery: bytes of the written stream from a place on. */
  datatype Piece = Piece(start: int, bytes: seq<Byte>)

  /** A run with its history: the stream accepted from the producer, what was delivered, and
      how many bytes were dropped. */
  datatype History = History(b: Buffer, written: seq<Byte>, delivered: seq<Piece>, dropped: nat)

  function Record(h: History, e: Event, bytesPerSample: int): History {
    var b := Step(h.b, e, bytesPerSample);
    match e
    case Produced(chunk) =>
      if h.b.stopped then h.(b := b)
      else h.(b := b, written := h.written + chunk,
              dropped := h.dropped + Max(|h.b.content| + |chunk| - |b.content|, 0))
    case Read(count) =>
      (match Pass(h.b, count).1
       case Data(bytes) => h.(b := b, delivered := h.delivered + [Piece(|h.written| - |h.b.content|, bytes)])
       case _ => h.(b := b))
    case Reconfigure(_, _) => h.(b := b, dropped := h.dropped + Max(|h.b.content| - |b.content|, 0))
    case Start => h.(b := b, dropped := h.dropped + |h.b.content|)
    case _ => h.(b := b)
  }

  function Delivered(pieces: seq<Piece>): nat {
    if pieces == [] then 0 else Delivered(pieces[..|pieces| - 1]) + |pieces[|pieces| - 1].bytes|
  }

  ghost predicate IsPiece(p: Piece, written: seq<Byte>, limit: int) {
    0 <= p.start && p.start + |p.bytes| <= limit <= |written| && p.bytes == written[p.start..p.start + |p.bytes|]
  }

  /** The pieces are parts of the written stream, one after the other, none overlapping. */
  ghost predicate InOrder(pieces: seq<Piece>, written: seq<Byte>, limit: int) {
    && (forall p :: p in pieces ==> IsPiece(p, written, limit))
    && (forall i, j :: 0 <= i < j < |pieces| ==> pieces[i].start + |pieces[i].bytes| <= pieces[j].start)
  }

  ghost predicate Ledger(h: History) {
    var kept := |h.written| - |h.b.content|;
    && kept >= 0 && h.b.content == h.written[kept..]
    && InOrder(h.delivered, h.written, kept)
    && |h.written| == Delivered(h.delivered) + h.dropped + |h.b.content|
  }

  /** Keeping the newest n bytes keeps the ledger, the others being dropped. */
  lemma KeepNewest(h: History, n: nat, b: Buffer)
    requires Ledger(h) && b.content == Last(h.b.content, n)
    ensures Ledger(h.(b := b, dropped := h.dropped + Max(|h.b.content| - |b.content|, 0)))
  {
    var kept := |h.written| - |b.content|;
    assert b.content == h.written[kept..];
    forall p | p in h.delivered ensures IsPiece(p, h.written, kept) {
      assert IsPiece(p, h.written, |h.written| - |h.b.content|);
    }
  }

  lemma Accept(h: History, chunk: seq<Byte>, b: Buffer)
    requires Ledger(h) && b.content == h.b.content + chunk
    ensures Ledger(h.(b := b, written := h.written + chunk))
  {
    var kept := |h.written| - |h.b.content|;
    var written := h.written + chunk;
    assert b.content == written[kept..];
    forall p | p in h.delivered ensures IsPiece(p, written, kept) {
      assert IsPiece(p, h.written, kept);
      assert written[p.start..p.start + |p.bytes|] == h.written[p.start..p.start + |p.bytes|];
    }
  }

  lemma Deliver(h: History, count: nat, b: Buffer)
    requires Ledger(h) && count <= |h.b.content| && b.content == h.b.content[count..]
    ensures Ledger(h.(b := b, delivered := h.delivered + [Piece(|h.written| - |h.b.content|, h.b.content[..count])]))
  {
    hide InOrder, Delivered;
    var kept := |h.written| - |h.b.content|;
    var piece := Piece(kept, h.b.content[..count]);
    DeliveredSnoc(h.delivered, piece);
    assert b.content == h.written[kept + count..];
    assert piece.bytes == h.written[kept..kept + count];
    OneMorePiece(h.delivered, piece, h.written, kept);
    assert kept + |piece.bytes| == |h.written| - |b.content|;
  }

  lemma DeliveredSnoc(pieces: seq<Piece>, piece: Piece)
    ensures Delivered(pieces + [piece]) == Delivered(pieces) + |piece.bytes|
  {
    assert (pieces + [piece])[..|pieces|] == pieces;
  }

  lemma OneMorePiece(pieces: seq<Piece>, piece: Piece, written: seq<Byte>, kept: int)
    requires InOrder(pieces, written, kept) && piece.start == kept
    requires IsPiece(piece, written, kept + |piece.bytes|)
    ensures InOrder(pieces + [piece], written, kept + |piece.bytes|)
  {
    var more := pieces + [piece];
    forall p | p in more ensures IsPiece(p, written, kept + |piece.bytes|) {
      assert p in pieces ==> IsPiece(p, written, kept);
    }
    forall i, j | 0 <= i < j < |more| ensures more[i].start + |more[i].bytes| <= more[j].start {
      assert more[i] in pieces;
      assert IsPiece(more[i], written, kept);
    }
  }

  lemma RecordKeeps(h: History, e: Event, bytesPerSample: int)
    requires Ledger(h)
    ensures Ledger(Record(h, e, bytesPerSample)) && Record(h, e, bytesPerSample).b == Step(h.b, e, bytesPerSample)
  {
    hide Ledger;
    var b := Step(h.b, e, bytesPerSample);
    match e
    case Produced(chunk) =>
      if chunk == [] {
        SameContent(h, b);
        assert h.written + chunk == h.written;
      } else if !h.b.stopped {
        var grown := h.b.(content := h.b.content + chunk);
        Accept(h, chunk, grown);
        KeepNewest(h.(b := grown, written := h.written + chunk), h.b.capacity, b);
      } else {
        SameContent(h, b);
      }
    case ProducerFailed(_) => SameContent(h, b);
    case Read(count) =>
      if Pass(h.b, count).1.Data? {
        Deliver(h, count, b);
      } else {
        SameContent(h, b);
      }
    case Reconfigure(_, _) =>
      if b.capacity == h.b.capacity {
        SameContent(h, b);
      } else {
        KeepNewest(h, b.capacity, b);
      }
    case Start =>
      assert Last(h.b.content, 0) == [];
      KeepNewest(h, 0, b);
    case Stop => SameContent(h, b);
  }

  lemma SameContent(h: History, b: Buffer)
    requires Ledger(h) && b.content == h.b.content
    ensures Ledger(h.(b := b))
  {
  }

  function Chronicle(b: Buffer, events: seq<Event>, bytesPerSample: int): History {
    if events == [] then History(b.(content := []), [], [], 0)
    else Record(Chronicle(b, events[..|events| - 1], bytesPerSample), events[|events| - 1], bytesPerSample)
  }

  /** Whole runs: in every interleaving of writes, reads, reconfigurations, starts and stops, what
      was delivered are parts of the accepted stream in order and without overlap; what is
      buffered is the end of that stream; and accepted = delivered + dropped + buffered. */
  lemma {:induction false} DeliveredInOrder(events: seq<Event>, bytesPerSample: int)
    ensures var h := Chronicle(Created(), events, bytesPerSample);
      Ledger(h) && h.b == Run(Created(), events, bytesPerSample)
  {
    hide Ledger, Record, Step;
    if events == [] {
      EmptyLedger();
    } else {
      DeliveredInOrder(events[..|events| - 1], bytesPerSample);
      RecordKeeps(Chronicle(Created(), events[..|events| - 1], bytesPerSample), events[|events| - 1], bytesPerSample);
    }
  }

  lemma EmptyLedger()
    ensures Ledger(History(Created(), [], [], 0))
  {
  }

  // ---------------------------------------------------------------- hysteresis

  /** A buffer leaves the filling state, or delivers out of it, only when primed. */
  lemma FillingHolds(b: Buffer, e: Event, bytesPerSample: int)
    requires b.filling && |b.content| < b.prime
    ensures Step(b, e, bytesPerSample).filling
    ensures e.Read? ==> !Pass(b, e.count).1.Data?
  {
  }

  /** After an underflow, or at the start, no read returns before the contents have reached the
      prime target: if a run from a filling state ends in a delivery, the buffer was primed at
      some moment on the way. */
  lemma {:induction false} PrimedBeforeDelivery(b: Buffer, events: seq<Event>, count: nat, bytesPerSample: int)
    returns (moment: nat)
    requires b.filling && Pass(Run(b, events, bytesPerSample), count).1.Data?
    ensures moment <= |events|
    ensures var at := Run(b, events[..moment], bytesPerSample);
      at.filling && |at.content| >= at.prime
  {
    hide Step;
    moment := FirstPrimed(b, events, bytesPerSample);
  }

  /** The first moment the buffer is primed while filling; past the end if there is none, and
      then it is still filling at the end. */
  lemma {:induction false} FirstPrimed(b: Buffer, events: seq<Event>, bytesPerSample: int)
    returns (moment: nat)
    requires b.filling
    ensures moment <= |events| ==>
      var at := Run(b, events[..moment], bytesPerSample);
      at.filling && |at.content| >= at.prime
    ensures moment > |events| ==>
      var last := Run(b, events, bytesPerSample);
      last.filling && |last.content| < last.prime
  {
    hide Step;
    if events == [] {
      moment := if |b.content| >= b.prime then 0 else 1;
    } else {
      var n := |events| - 1;
      moment := FirstPrimed(b, events[..n], bytesPerSample);
      if moment <= n {
        assert events[..n][..moment] == events[..moment];
      } else {
        FillingHolds(Run(b, events[..n], bytesPerSample), events[n], bytesPerSample);
        var last := Run(b, events, bytesPerSample);
        assert events[..n + 1] == events;
        moment := if |last.content| >= last.prime then n + 1 else n + 2;
      }
    }
  }

  // ---------------------------------------------------------------- progress

  /** A reader that tries again after every write: does it get its bytes by the last of them? */
  function Released(b: Buffer, chunks: seq<seq<Byte>>, count: nat): bool
    decreases |chunks|
  {
    var (b', outcome) := Pass(b, count);
    outcome.Data? || (chunks != [] && Released(Filled(b', chunks[0]), chunks[1..], count))
  }

  lemma {:induction false} ReleasedWithin(b: Buffer, chunks: seq<seq<Byte>>, count: nat)
    requires Sound(b) && b.error == None && !b.stopped && count <= b.capacity
    requires (forall c :: c in chunks ==> c != []) && |chunks| >= b.capacity - |b.content|
    ensures Released(b, chunks, count)
    decreases |chunks|
  {
    var (b', outcome) := Pass(b, count);
    if !outcome.Data? {
      assert chunks != [] && chunks[0] in chunks;
      assert forall c :: c in chunks[1..] ==> c in chunks;
      var next := Filled(b', chunks[0]);
      assert |next.content| > |b.content| || |next.content| == b.capacity;
      ReleasedWithin(next, chunks[1..], count);
    }
  }

  lemma {:induction false} NeverReleased(b: Buffer, chunks: seq<seq<Byte>>, count: nat)
    requires |b.content| <= b.capacity < count
    ensures !Released(b, chunks, count)
    decreases |chunks|
  {
    if chunks != [] {
      NeverReleased(Filled(Pass(b, count).0, chunks[0]), chunks[1..], count);
    }
  }

  /** Progress: absent stop, error and reconfiguration, a single reader is certain to be released
      after at most capacity non-empty writes if and only if it asks for no more than the
      capacity. A reader let in before the capacity shrank below its request waits for ever. */
  lemma ReleasedExactly(b: Buffer, count: nat)
    requires Sound(b) && b.error == None && !b.stopped
    ensures (forall chunks: seq<seq<Byte>> ::
               (forall c :: c in chunks ==> c != []) && |chunks| >= b.capacity ==> Released(b, chunks, count))
      <==> count <= b.capacity
  {
    if count <= b.capacity {
      forall chunks: seq<seq<Byte>> | (forall c :: c in chunks ==> c != []) && |chunks| >= b.capacity
        ensures Released(b, chunks, count)
      {
        ReleasedWithin(b, chunks, count);
      }
    } else {
      var one: Byte := 0;
      var chunks := seq(b.capacity, _ => [one]);
      NeverReleased(b, chunks, count);
    }
  }

  /** It happens: a reader of 150 bytes is let in while the capacity is 200; then the duration is
      halved, and with it the capacity. */
  lemma WaitsForEver(chunks: seq<seq<Byte>>)
    ensures var before := Reconfigured(Created(), 1.0, 100.0, 1);
      var after := Step(before, Reconfigure(1.0, 50.0), 1);
      && Sound(before) && before.capacity == 200 && Entry(before, 150) == None
      && Sound(after) && after.capacity == 100 && after.error == None && !after.stopped
      && !Released(after, chunks, 150)
  {
    var before := Reconfigured(Created(), 1.0, 100.0, 1);
    var after := Step(before, Reconfigure(1.0, 50.0), 1);
    NeverReleased(after, chunks, 150);
  }
}
