/** The fixed-capacity byte ring of the jitter buffer: a FIFO that drops its oldest bytes when
    it overflows. The buffer is one array written in place; Contents is what it stands for. */
module ByteRing {
  import opened Arithmetic

  type Byte = bv8

  /** The last n elements, or all of them if there are fewer. */
  function Last<T>(s: seq<T>, n: nat): (r: seq<T>)
    ensures |r| == if |s| <= n then |s| else n
  {
    if |s| <= n then s else s[|s| - n..]
  }

  // ---------------------------------------------------------------- circular slices

  /** An index below 2 c, modulo c. */
  function Wrap(i: nat, c: nat): nat
    requires i < 2 * c
  {
    if i < c then i else i - c
  }

  /** n elements of b from the given start on, running round the end. */
  function Circle<T>(b: seq<T>, start: nat, n: nat): (r: seq<T>)
    requires n <= |b| && (start < |b| || n == 0)
    ensures |r| == n && forall i :: 0 <= i < n ==> r[i] == b[Wrap(start + i, |b|)]
  {
    seq(n, i requires 0 <= i < n => b[Wrap(start + i, |b|)])
  }

  /** The remainder operator, with the sign of the divisor. */
  function Modulo(i: int, c: nat): (r: nat)
    requires c > 0
    ensures r < c
  {
    i % c
  }

  lemma WrapIsModulo(i: int, c: nat)
    requires c > 0 && 0 <= i + c && i < 2 * c
    ensures i < 0 ==> Modulo(i, c) == i + c
    ensures i >= 0 ==> Modulo(i, c) == Wrap(i, c)
  {
    if i < 0 {
      DivModUnique(i, c, -1, i + c);
    } else if i < c {
      DivModUnique(i, c, 0, i);
    } else {
      DivModUnique(i, c, 1, i - c);
    }
  }

  lemma CircleSlices<T>(b: seq<T>, start: nat, n: nat)
    requires 0 < n <= |b| && start < |b|
    ensures n <= |b| - start ==> b[start..start + n] == Circle(b, start, n)
    ensures n > |b| - start ==> b[start..] + b[..n - (|b| - start)] == Circle(b, start, n)
  {
  }

  lemma CircleDrop<T>(b: seq<T>, start: nat, n: nat, k: nat)
    requires k <= n <= |b| && start < |b|
    ensures Circle(b, Wrap(start + k, |b|), n - k) == Circle(b, start, n)[k..]
  {
  }

  /** Writing a chunk right behind n elements, which stay as they are, appends it. */
  lemma CircleAppend<T>(b: seq<T>, b': seq<T>, start: nat, n: nat, chunk: seq<T>)
    requires |b| == |b'| && start < |b| && n + |chunk| <= |b|
    requires Circle(b', start, n) == Circle(b, start, n)
    requires Circle(b', Wrap(start + n, |b|), |chunk|) == chunk
    ensures Circle(b', start, n + |chunk|) == Circle(b, start, n) + chunk
  {
    var lhs, rhs := Circle(b', start, n + |chunk|), Circle(b, start, n) + chunk;
    forall i | 0 <= i < |lhs| ensures lhs[i] == rhs[i] {
      if i >= n {
        assert chunk[i - n] == b'[Wrap(Wrap(start + n, |b|) + (i - n), |b|)];
      } else {
        assert Circle(b', start, n)[i] == b'[Wrap(start + i, |b|)];
      }
    }
  }

  /** Element k of b after a chunk no longer than b was stored from tail on, round the end. */
  function Overlaid<T>(b: seq<T>, tail: nat, chunk: seq<T>, k: nat): T
    requires k < |b| && |chunk| <= |b| && tail < |b|
  {
    if tail <= k < tail + |chunk| then chunk[k - tail]
    else if k < tail + |chunk| - |b| then chunk[k + |b| - tail]
    else b[k]
  }

  /** A chunk stored from tail on, in one piece or two, reads back as a circular slice, and
      touches none of the n elements that end at tail. */
  lemma CircleStored<T>(b: seq<T>, b': seq<T>, start: nat, n: nat, chunk: seq<T>)
    requires |b| == |b'| && start < |b| && n + |chunk| <= |b|
    requires forall k :: 0 <= k < |b| ==> b'[k] == Overlaid(b, Wrap(start + n, |b|), chunk, k)
    ensures Circle(b', start, n) == Circle(b, start, n)
    ensures Circle(b', Wrap(start + n, |b|), |chunk|) == chunk
  {
  }

  lemma NextTail(head: nat, size: nat, n: nat, c: nat)
    requires c > 0 && head < c && size + n <= c
    ensures Modulo(Wrap(head + size, c) + n, c) == Wrap(head + (size + n), c)
  {
    hide Modulo;
    WrapIsModulo(Wrap(head + size, c) + n, c);
  }

  /** Moving the head on by k leaves the tail where it is. */
  lemma SameTail(head: nat, size: nat, k: nat, c: nat)
    requires c > 0 && head < c && k <= size <= c
    ensures Modulo(head + k, c) == Wrap(head + k, c)
    ensures Wrap(Wrap(head + k, c) + (size - k), c) == Wrap(head + size, c)
  {
    hide Modulo;
    WrapIsModulo(head + k, c);
  }

  /** n places back from the tail is size - n places on from the head. */
  lemma BackFromTail(head: nat, size: nat, n: nat, c: nat)
    requires c > 0 && head < c && n <= size <= c
    ensures Modulo(Wrap(head + size, c) - n, c) == Wrap(head + (size - n), c)
  {
    hide Modulo;
    WrapIsModulo(Wrap(head + size, c) - n, c);
  }

  lemma NewestAreLast<T>(b: seq<T>, head: nat, size: nat, n: nat)
    requires 0 < n <= size <= |b| && head < |b|
    ensures Circle(b, Wrap(head + (size - n), |b|), n) == Last(Circle(b, head, size), n)
  {
    hide Wrap, Circle;
    CircleDrop(b, head, size, size - n);
  }

  // ---------------------------------------------------------------- the ring

  class Ring {
    const buf: array<Byte>
    const capacity: nat
    var head: nat
    var tail: nat
    var size: nat

    ghost predicate Valid()
      reads this
    {
      && buf.Length == capacity && size <= capacity
      && (capacity == 0 ==> head == 0 && tail == 0)
      && (capacity > 0 ==> head < capacity && tail == Wrap(head + size, capacity))
    }

    /** The bytes held, oldest first. */
    ghost function Contents(): (s: seq<Byte>)
      reads this, buf
      requires Valid()
      ensures |s| == size
    {
      Circle(buf[..], head, size)
    }

    constructor (capacity: nat)
      ensures Valid() && this.capacity == capacity && Contents() == [] && fresh(buf)
    {
      buf := new Byte[capacity](_ => 0);
      this.capacity := capacity;
      head, tail, size := 0, 0, 0;
    }

    method Reset()
      requires Valid()
      modifies this
      ensures Valid() && Contents() == []
    {
      head, tail, size := 0, 0, 0;
    }

    /** buf[at..at + |chunk|] = chunk */
    method Store(at: nat, chunk: seq<Byte>)
      requires at + |chunk| <= buf.Length
      modifies buf
      ensures forall k :: 0 <= k < buf.Length ==>
        buf[k] == if at <= k < at + |chunk| then chunk[k - at] else old(buf[k])
    {
      for i := 0 to |chunk|
        invariant forall k :: 0 <= k < buf.Length ==>
          buf[k] == if at <= k < at + i then chunk[k - at] else old(buf[k])
      {
        buf[at + i] := chunk[i];
      }
    }

    /** Appends a chunk, dropping the oldest bytes on overflow. */
    method Write(chunk: seq<Byte>)
      requires Valid()
      modifies this, buf
      ensures Valid() && Contents() == Last(old(Contents()) + chunk, capacity)
    {
      hide Circle, Wrap;
      var n := |chunk|;
      ghost var before := Contents();
      if n == 0 || capacity == 0 {
        assert n == 0 ==> before + chunk == before;
        return;
      }
      if n >= capacity {
        Replace(chunk);
        assert Last(before + chunk, capacity) == Last(chunk, capacity);
        return;
      }
      var overflow := size + n - capacity;
      if overflow > 0 {
        DropOldest(overflow);
        Append(chunk);
        assert before[overflow..] + chunk == (before + chunk)[overflow..];
      } else {
        Append(chunk);
      }
    }

    /** A chunk that fills the ring by itself: its newest part replaces everything. */
    method Replace(chunk: seq<Byte>)
      requires Valid() && |chunk| >= capacity > 0
      modifies this, buf
      ensures Valid() && Contents() == Last(chunk, capacity)
    {
      Store(0, chunk[|chunk| - capacity..]);
      head, tail, size := 0, 0, capacity;
    }

    method DropOldest(overflow: nat)
      requires Valid() && capacity > 0 && overflow <= size
      modifies this`head, this`size
      ensures Valid() && Contents() == old(Contents())[overflow..] && size == old(size) - overflow
    {
      hide Circle, Wrap, Modulo;
      CircleDrop(buf[..], head, size, overflow);
      SameTail(head, size, overflow, capacity);
      head := Modulo(head + overflow, capacity);
      size := size - overflow;
    }

    /** The part of Write that stores a chunk for which there is room. */
    method Append(chunk: seq<Byte>)
      requires Valid() && 0 < |chunk| < capacity && size + |chunk| <= capacity
      modifies this`tail, this`size, buf
      ensures Valid() && Contents() == old(Contents()) + chunk
    {
      hide Circle, Wrap, Modulo;
      ghost var before := buf[..];
      StoreWrapped(chunk);
      CircleStored(before, buf[..], head, size, chunk);
      CircleAppend(before, buf[..], head, size, chunk);
      NextTail(head, size, |chunk|, capacity);
      tail := Modulo(tail + |chunk|, capacity);
      size := size + |chunk|;
    }

    /** Stores a chunk at the tail, in two pieces if it runs round the end. */
    method StoreWrapped(chunk: seq<Byte>)
      requires Valid() && capacity > 0 && |chunk| <= capacity
      modifies buf
      ensures forall k :: 0 <= k < buf.Length ==> buf[k] == Overlaid(old(buf[..]), tail, chunk, k)
    {
      var n := |chunk|;
      var endSpace := capacity - tail;
      if n <= endSpace {
        Store(tail, chunk);
      } else {
        Store(tail, chunk[..endSpace]);
        Store(0, chunk[endSpace..]);
      }
    }

    /** Removes and returns n bytes from the head; nothing if n is not positive or too large. */
    method Pop(n: int) returns (data: seq<Byte>)
      requires Valid()
      modifies this`head, this`size
      ensures Valid()
      ensures 0 < n <= old(size) ==> data == old(Contents())[..n] && Contents() == old(Contents())[n..]
      ensures !(0 < n <= old(size)) ==> data == [] && Contents() == old(Contents())
    {
      hide Wrap, Modulo;
      if n <= 0 || n > size {
        return [];
      }
      data := Slice(head, n);
      CircleDrop(buf[..], head, size, n);
      assert data == Contents()[..n];
      SameTail(head, size, n, capacity);
      head := Modulo(head + n, capacity);
      size := size - n;
    }

    /** n bytes from a place on, read in one piece or two. */
    method Slice(start: nat, n: nat) returns (data: seq<Byte>)
      requires buf.Length == capacity && 0 < n <= capacity && start < capacity
      ensures data == Circle(buf[..], start, n)
    {
      CircleSlices(buf[..], start, n);
      var endSpace := capacity - start;
      if n <= endSpace {
        data := buf[start..start + n];
      } else {
        data := buf[start..] + buf[..n - endSpace];
        assert buf[..][start..] == buf[start..];
      }
    }

    /** The newest n bytes, not removed. */
    method PeekTail(n: int) returns (data: seq<Byte>)
      requires Valid()
      ensures data == if 0 < n <= size then Last(Contents(), n) else []
    {
      if n <= 0 || n > size || capacity == 0 {
        return [];
      }
      hide Wrap, Modulo, Circle, Last;
      var start := Modulo(tail - n, capacity);
      BackFromTail(head, size, n, capacity);
      NewestAreLast(buf[..], head, size, n);
      data := Slice(start, n);
    }
  }
}
