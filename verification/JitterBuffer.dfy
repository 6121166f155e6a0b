/** The jitter buffer object. Each method is one critical section of the original, the code
    between taking the lock and releasing or waiting on it; its contract is the step of
    JitterRuns it performs, on a ring that is replaced or written in place. */
module JitterBuffer {
  import opened Options
  import opened ByteRing
  import opened JitterRuns

  class JitterBuffer {
    const bytesPerSample: int
    var ring: Ring
    var primeTarget: nat
    var underflowTarget: nat
    var filling: bool
    var rebufferCount: nat
    var error: Option<Failure>
    var stopped: bool
    var prefillSeconds: real
    var sampleRate: real
    /** A producer thread exists: started, and not yet seen to have ended. */
    var running: bool

    ghost predicate Valid()
      reads this, ring
    {
      ring.Valid()
    }

    ghost function Abstract(): Buffer
      reads this, ring, ring.buf
      requires Valid()
    {
      Buffer(ring.Contents(), ring.capacity, primeTarget, underflowTarget, filling, rebufferCount,
             error, stopped, prefillSeconds, sampleRate)
    }

    /** Sizes the ring at once when both duration and rate are known; otherwise the producer
        idles on an empty ring until they are. */
    constructor (prefillSeconds: real, sampleRate: real, bytesPerSample: int)
      ensures Valid() && this.bytesPerSample == bytesPerSample && fresh(ring) && fresh(ring.buf)
      ensures var b := Created().(seconds := prefillSeconds, rate := sampleRate);
        Abstract() == if sampleRate > 0.0 && prefillSeconds > 0.0
                      then Reconfigured(b, prefillSeconds, sampleRate, bytesPerSample) else b
      ensures !running
    {
      this.bytesPerSample := bytesPerSample;
      this.prefillSeconds, this.sampleRate := prefillSeconds, sampleRate;
      primeTarget, underflowTarget, filling, rebufferCount := 0, 0, true, 0;
      error, stopped, running := None, false, false;
      ring := new Ring(0);
      new;
      if sampleRate > 0.0 && prefillSeconds > 0.0 {
        ReconfigureLocked(prefillSeconds, sampleRate);
      }
    }

    method ReconfigureLocked(seconds: real, rate: real)
      requires Valid()
      modifies this`ring, this`primeTarget, this`underflowTarget, this`filling, this`prefillSeconds, this`sampleRate
      ensures Valid() && Abstract() == Reconfigured(old(Abstract()), seconds, rate, bytesPerSample)
      ensures ring == old(ring) || (fresh(ring) && fresh(ring.buf))
    {
      hide CapacityFor, PrimeFor, UnderflowFor, BytesIn, Last;
      ghost var goal := Reconfigured(Abstract(), seconds, rate, bytesPerSample);
      prefillSeconds, sampleRate := seconds, rate;
      var bytes := BytesIn(seconds, rate, bytesPerSample);
      var newCapacity := CapacityFor(bytes);
      primeTarget := PrimeFor(bytes);
      underflowTarget := UnderflowFor(primeTarget);
      if newCapacity != ring.capacity {
        Reallocate(newCapacity);
      }
      assert ring.Contents() == goal.content && ring.capacity == goal.capacity;
      if ring.size < underflowTarget {
        filling := true;
      }
    }

    /** A ring of another capacity with the newest bytes that fit. */
    method Reallocate(newCapacity: nat)
      requires Valid()
      modifies this`ring
      ensures Valid() && fresh(ring) && fresh(ring.buf) && ring.capacity == newCapacity
      ensures ring.Contents() == Last(old(ring.Contents()), newCapacity)
    {
      var keep := if ring.size < newCapacity then ring.size else newCapacity;
      ghost var before := ring.Contents();
      var data := [];
      if keep > 0 {
        data := ring.PeekTail(keep);
      }
      KeptBytes(before, newCapacity, data);
      ring := new Ring(newCapacity);
      if keep > 0 {
        ring.Write(data);
      }
    }

    method SetPrefillSeconds(seconds: real) returns (ok: bool)
      requires Valid()
      modifies this`ring, this`primeTarget, this`underflowTarget, this`filling, this`prefillSeconds, this`sampleRate
      ensures Valid() && (ok <==> seconds > 0.0)
      ensures Abstract() ==
        if ok then Reconfigured(old(Abstract()), seconds, old(sampleRate), bytesPerSample) else old(Abstract())
    {
      ok := seconds > 0.0;
      if ok {
        ReconfigureLocked(seconds, sampleRate);
      }
    }

    method SetSampleRate(rate: real) returns (ok: bool)
      requires Valid()
      modifies this`ring, this`primeTarget, this`underflowTarget, this`filling, this`prefillSeconds, this`sampleRate
      ensures Valid() && (ok <==> rate >= 0.0)
      ensures Abstract() ==
        if ok then Reconfigured(old(Abstract()), old(prefillSeconds), rate, bytesPerSample) else old(Abstract())
    {
      ok := rate >= 0.0;
      if ok {
        ReconfigureLocked(prefillSeconds, rate);
      }
    }

    /** Starts a lifecycle, unless a producer thread still exists. */
    method Start() returns (ok: bool)
      requires Valid()
      modifies this`stopped, this`error, this`filling, this`rebufferCount, this`running, ring
      ensures Valid() && running && (ok <==> !old(running))
      ensures Abstract() == if ok then Restarted(old(Abstract())) else old(Abstract())
    {
      if running {
        return false;
      }
      stopped, error, filling := false, None, true;
      ring.Reset();
      rebufferCount := 0;
      running := true;
      return true;
    }

    /** Raises the stop flag; the thread is forgotten only if it ends while it is waited for. */
    method Stop(ended: bool)
      requires Valid()
      modifies this`stopped, this`running
      ensures Valid() && Abstract() == old(Abstract()).(stopped := true)
      ensures running == (old(running) && !ended)
    {
      stopped := true;
      if !running {
        return;
      }
      if ended {
        running := false;
      }
    }

    /** What the producer thread does with what its source gave it. */
    method TakeChunk(chunk: seq<Byte>)
      requires Valid()
      modifies this`error, ring, ring.buf
      ensures Valid() && Abstract() == Filled(old(Abstract()), chunk)
    {
      if chunk == [] {
        error := Some(EndOfInput);
      } else if !stopped {
        ring.Write(chunk);
      }
    }

    method ProducerRaisedError(code: int)
      requires Valid()
      modifies this`error
      ensures Valid() && Abstract() == old(Abstract()).(error := Some(ProducerRaised(code)))
    {
      error := Some(ProducerRaised(code));
    }

    /** The checks at the head of a read. */
    method EnterRead(count: int) returns (result: Option<Outcome>)
      requires Valid()
      ensures result == Entry(Abstract(), count)
    {
      if count == 0 {
        return Some(Data([]));
      }
      if count < 0 {
        return Some(Negative);
      }
      if count > ring.capacity {
        return Some(TooLarge);
      }
      return None;
    }

    /** One pass through the read loop, up to the next return, exception or wait. */
    method ReadPass(count: nat) returns (outcome: Outcome)
      requires Valid() && count > 0
      modifies this`filling, this`rebufferCount, ring
      ensures Valid() && (Abstract(), outcome) == Pass(old(Abstract()), count)
    {
      if error.Some? {
        return Raised(error.value);
      }
      if stopped {
        return Closed;
      }
      if filling {
        if ring.size >= primeTarget {
          filling := false;
        } else {
          return Wait;
        }
      }
      if ring.size >= count {
        var data := ring.Pop(count);
        if ring.size < underflowTarget && !filling {
          filling := true;
          rebufferCount := rebufferCount + 1;
        }
        return Data(data);
      }
      return Wait;
    }
  }

  /** What is carried over to a ring of another capacity. */
  lemma KeptBytes(before: seq<Byte>, capacity: nat, data: seq<Byte>)
    requires var keep := if |before| < capacity then |before| else capacity;
      data == if keep > 0 then Last(before, keep) else []
    ensures data == Last(before, capacity) && Last([] + data, capacity) == data
  {
    assert [] + data == data;
  }
}
