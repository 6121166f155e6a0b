/** The rules of the jitter buffer over whole runs, told from events and sizes: how the watermarks are
    set, when the buffer fills, which reads are answered, and what the flags mean. */
module JitterRules {
  import opened Options
  import opened ByteRing
  import opened JitterRuns

  // ---------------------------------------------------------------- watermarks

  /** The capacity is twice the bytes asked for, the prime target those bytes, and the underflow target
      half the prime target, each rounded down to whole bytes, and the targets at least one; without
      capacity both are zero. */
  ghost predicate MarksOf(bytes: real, capacity: nat, prime: nat, underflow: nat) {
    && (if bytes < 0.5 then capacity == 0 else capacity as real <= 2.0 * bytes < capacity as real + 1.0)
    && (capacity == 0 ==> prime == 0 && underflow == 0)
    && (capacity > 0 ==> (if bytes < 1.0 then prime == 1 else prime as real <= bytes < prime as real + 1.0))
    && (capacity > 0 ==> (if prime < 2 then underflow == 1 else 2 * underflow <= prime < 2 * underflow + 2))
  }

  lemma MarksExactly(bytes: real)
    ensures MarksOf(bytes, CapacityFor(bytes), PrimeFor(bytes), UnderflowFor(PrimeFor(bytes)))
  {
    var prime := PrimeFor(bytes);
    assert 0.5 * prime as real == prime as real / 2.0;
  }

  /** The seconds and the rate set last in a run. */
  function LastSet(events: seq<Event>): (real, real) {
    if events == [] then (0.0, 0.0)
    else
      match events[|events| - 1]
      case Reconfigure(seconds, rate) => (seconds, rate)
      case _ => LastSet(events[..|events| - 1])
  }

  /** The bytes that makes. */
  function AskedFor(events: seq<Event>, bytesPerSample: int): real {
    LastSet(events).0 * (LastSet(events).1 * bytesPerSample as real)
  }

  /** In every reachable state the watermarks are those of the seconds and the rate set last, which are
      remembered. */
  lemma {:induction false} MarksAlways(events: seq<Event>, bytesPerSample: int)
    ensures var b := Run(Created(), events, bytesPerSample);
      && MarksOf(AskedFor(events, bytesPerSample), b.capacity, b.prime, b.underflow)
      && (b.seconds, b.rate) == LastSet(events)
  {
    hide MarksOf, CapacityFor, PrimeFor, UnderflowFor, Last, AskedFor, BytesIn;
    if events == [] {
      NoMarks(bytesPerSample);
    } else {
      var before := events[..|events| - 1];
      MarksAlways(before, bytesPerSample);
      MarksExactly(AskedFor(events, bytesPerSample));
      NextAsked(events, bytesPerSample);
    }
  }

  lemma NextAsked(events: seq<Event>, bytesPerSample: int)
    requires events != []
    ensures match events[|events| - 1]
      case Reconfigure(seconds, rate) => AskedFor(events, bytesPerSample) == BytesIn(seconds, rate, bytesPerSample)
      case _ => AskedFor(events, bytesPerSample) == AskedFor(events[..|events| - 1], bytesPerSample)
  {
  }

  lemma NoMarks(bytesPerSample: int)
    ensures MarksOf(AskedFor([], bytesPerSample), 0, 0, 0)
  {
    assert 0.0 * (0.0 * bytesPerSample as real) == 0.0;
  }

  // ---------------------------------------------------------------- reads

  /** Which reads are answered, exactly: an error comes first, then a stop; then a read gets the oldest
      bytes if there are enough and the buffer is not filling, or is primed; else it waits. */
  lemma ReadsExactly(b: Buffer, count: nat)
    ensures var (b', outcome) := Pass(b, count);
      var ready := b.error == None && !b.stopped;
      && (b.error.Some? ==> outcome == Raised(b.error.value))
      && (b.error == None && b.stopped ==> outcome == Closed)
      && (ready && count <= |b.content| && (!b.filling || |b.content| >= b.prime) ==>
            outcome == Data(b.content[..count]) && b'.content == b.content[count..])
      && (ready && !(count <= |b.content| && (!b.filling || |b.content| >= b.prime)) ==> outcome == Wait)
      && (!outcome.Data? ==> b'.content == b.content)
  {
  }

  /** What is answered without waiting: a read of nothing, and counts that make no sense. */
  lemma EntryExactly(b: Buffer, count: int)
    ensures Entry(b, count) == None <==> 0 < count <= b.capacity
    ensures count == 0 ==> Entry(b, count) == Some(Data([]))
    ensures count < 0 ==> Entry(b, count) == Some(Negative)
    ensures count > b.capacity ==> Entry(b, count) == Some(TooLarge)
  {
  }

  /** A write keeps the newest bytes that fit: none is dropped unless the capacity is reached. */
  lemma WritesExactly(b: Buffer, chunk: seq<Byte>)
    requires |b.content| <= b.capacity
    ensures var b', all := Filled(b, chunk), b.content + chunk;
      && (b.stopped || chunk == [] ==> b'.content == b.content)
      && (!b.stopped && chunk != [] ==>
            |b'.content| == (if |all| <= b.capacity then |all| else b.capacity)
            && b'.content == all[|all| - |b'.content|..])
  {
  }

  /** A reconfiguration keeps the newest bytes that fit into the new capacity, a start keeps none, and
      stops and failures touch nothing. */
  lemma ContentsExactly(b: Buffer, e: Event, bytesPerSample: int)
    requires |b.content| <= b.capacity
    ensures var b' := Step(b, e, bytesPerSample);
      && (e.Reconfigure? ==>
            |b'.content| == (if |b.content| <= b'.capacity then |b.content| else b'.capacity)
            && b'.content == b.content[|b.content| - |b'.content|..])
      && (e.Start? ==> b'.content == [])
      && (e.Stop? || e.ProducerFailed? ==> b'.content == b.content)
      && (!e.Reconfigure? ==> b'.capacity == b.capacity)
  {
    hide CapacityFor, PrimeFor, UnderflowFor, BytesIn;
  }

  // ---------------------------------------------------------------- filling

  /** A read that is answered and leaves less than the underflow target. */
  predicate Drains(b: Buffer, e: Event) {
    e.Read? && Pass(b, e.count).1.Data? && |b.content| - e.count < b.underflow
  }

  /** A reconfiguration that leaves less than the new underflow target. */
  predicate Outgrows(b: Buffer, e: Event, bytesPerSample: int) {
    e.Reconfigure? &&
      var b' := Step(b, e, bytesPerSample);
      |b'.content| < b'.underflow
  }

  /** Filling begins at a start, at a delivery that leaves less than the underflow target, or at a
      reconfiguration that does, and at nothing else. */
  lemma FillingBegins(b: Buffer, e: Event, bytesPerSample: int)
    requires !b.filling
    ensures Step(b, e, bytesPerSample).filling <==> e.Start? || Drains(b, e) || Outgrows(b, e, bytesPerSample)
  {
    hide CapacityFor, PrimeFor, UnderflowFor, BytesIn, Last;
  }

  /** It ends when a reader looks at a primed buffer and does not drain it, and at nothing else. */
  lemma FillingEnds(b: Buffer, e: Event, bytesPerSample: int)
    requires b.filling
    ensures !Step(b, e, bytesPerSample).filling <==>
      e.Read? && b.error == None && !b.stopped && |b.content| >= b.prime && !Drains(b, e)
  {
    hide CapacityFor, PrimeFor, UnderflowFor, BytesIn, Last;
  }

  /** No event of a run begins filling. */
  ghost predicate Calm(b: Buffer, events: seq<Event>, bytesPerSample: int) {
    forall i :: 0 <= i < |events| ==>
      var at := Run(b, events[..i], bytesPerSample);
      !events[i].Start? && !Drains(at, events[i]) && !Outgrows(at, events[i], bytesPerSample)
  }

  lemma {:induction false} StaysPrimed(b: Buffer, events: seq<Event>, bytesPerSample: int)
    requires !b.filling && Calm(b, events, bytesPerSample)
    ensures !Run(b, events, bytesPerSample).filling
  {
    hide Step, Drains, Outgrows;
    if events != [] {
      var n := |events| - 1;
      assert forall i :: 0 <= i < n ==> events[..n][..i] == events[..i];
      StaysPrimed(b, events[..n], bytesPerSample);
      FillingBegins(Run(b, events[..n], bytesPerSample), events[n], bytesPerSample);
    }
  }

  /** So a primed buffer answers every read of at most its contents, however many, until a start, a
      draining read, or a reconfiguration that outgrows the contents. */
  lemma PrimedAnswers(b: Buffer, events: seq<Event>, count: nat, bytesPerSample: int)
    requires !b.filling && Calm(b, events, bytesPerSample)
    ensures var at := Run(b, events, bytesPerSample);
      at.error == None && !at.stopped && count <= |at.content| ==> Pass(at, count).1 == Data(at.content[..count])
  {
    hide Run, Calm;
    StaysPrimed(b, events, bytesPerSample);
    ReadsExactly(Run(b, events, bytesPerSample), count);
  }

  // ---------------------------------------------------------------- what is counted and remembered

  /** Draining reads since the last start of a run. */
  function Drained(b: Buffer, events: seq<Event>, bytesPerSample: int): nat {
    if events == [] then 0
    else
      var n := |events| - 1;
      if events[n].Start? then 0
      else Drained(b, events[..n], bytesPerSample)
           + (if Drains(Run(b, events[..n], bytesPerSample), events[n]) then 1 else 0)
  }

  /** Whether a stop was asked for since the last start, and what the producer failed with last. */
  function StopAsked(events: seq<Event>): bool {
    events != [] &&
      match events[|events| - 1]
      case Stop => true
      case Start => false
      case _ => StopAsked(events[..|events| - 1])
  }

  function FailedWith(events: seq<Event>): Option<Failure> {
    if events == [] then None
    else
      match events[|events| - 1]
      case Start => None
      case ProducerFailed(code) => Some(ProducerRaised(code))
      case Produced(chunk) => if chunk == [] then Some(EndOfInput) else FailedWith(events[..|events| - 1])
      case _ => FailedWith(events[..|events| - 1])
  }

  /** In every reachable state the rebuffer count is the number of draining reads since the last start,
      the stop flag and the error are what happened since then. */
  lemma {:induction false} RememberedExactly(events: seq<Event>, bytesPerSample: int)
    ensures var b := Run(Created(), events, bytesPerSample);
      && b.rebuffers == Drained(Created(), events, bytesPerSample)
      && b.stopped == StopAsked(events) && b.error == FailedWith(events)
  {
    hide CapacityFor, PrimeFor, UnderflowFor, BytesIn, Last;
    if events != [] {
      RememberedExactly(events[..|events| - 1], bytesPerSample);
    }
  }
}
