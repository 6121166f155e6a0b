/** The slot slicer of the FT8 / FT4 demodulator: aligns to the clock, appends audio to a
    growable buffer, and cuts it into slots. */
module WsjtSlots {
  import opened Options
  import opened Arithmetic

  datatype Mode = FT8 | FT4

  const TARGET_RATE := 12000.0

  function SlotSeconds(mode: Mode): real {
    if mode.FT4? then 7.5 else 15.0
  }

  function SlotSamples(mode: Mode): nat {
    (SlotSeconds(mode) * TARGET_RATE).Floor
  }

  /** A slot handed to the decoder: its audio and the time it started. */
  datatype Slot = Slot(audio: seq<real>, utc: real)

  // ---------------------------------------------------------------- alignment

  function Ceiling(x: real): int {
    -((-x).Floor)
  }

  /** Rounding to the nearest integer, ties to even. */
  function Round(x: real): int {
    var f := x.Floor;
    var d := x - f as real;
    if d < 0.5 then f else if d > 0.5 then f + 1 else if f % 2 == 0 then f else f + 1
  }

  /** The first slot boundary not before the capture time of the first sample. */
  function FirstSlot(capture: real, mode: Mode): real {
    Ceiling(capture / SlotSeconds(mode)) as real * SlotSeconds(mode)
  }

  function AlignSamples(capture: real, mode: Mode): int {
    Round((FirstSlot(capture, mode) - capture) * TARGET_RATE)
  }

  predicate WholeMultiple(x: real, unit: real)
    requires unit > 0.0
  {
    x / unit == (x / unit).Floor as real
  }

  lemma MultipleIsWhole(k: int, unit: real)
    requires unit > 0.0
    ensures WholeMultiple(k as real * unit, unit)
  {
    assert k as real * unit / unit == k as real;
  }

  lemma FirstSlotWhole(capture: real, mode: Mode)
    ensures WholeMultiple(FirstSlot(capture, mode), if mode.FT4? then 7.5 else 15.0)
  {
    hide WholeMultiple, Ceiling;
    MultipleIsWhole(Ceiling(capture / SlotSeconds(mode)), SlotSeconds(mode));
    assert SlotSeconds(mode) == if mode.FT4? then 7.5 else 15.0;
  }

  /** Slot 0 begins at a multiple of the slot time, less than one slot after the capture time,
      and the prefix that is dropped ends within half a sample of it, at an even number of samples
      if it is exactly half. */
  lemma Alignment(capture: real, mode: Mode)
    ensures WholeMultiple(FirstSlot(capture, mode), if mode.FT4? then 7.5 else 15.0)
    ensures capture <= FirstSlot(capture, mode) < capture + SlotSeconds(mode)
    ensures 0 <= AlignSamples(capture, mode) <= SlotSamples(mode)
    ensures -0.5 <= (FirstSlot(capture, mode) - capture) * TARGET_RATE - AlignSamples(capture, mode) as real <= 0.5
    ensures var error := (FirstSlot(capture, mode) - capture) * TARGET_RATE - AlignSamples(capture, mode) as real;
      error == 0.5 || error == -0.5 ==> AlignSamples(capture, mode) % 2 == 0
  {
    hide Round, Ceiling, WholeMultiple;
    FirstSlotWhole(capture, mode);
    CeilingBounds(capture / SlotSeconds(mode));
    var c := Ceiling(capture / SlotSeconds(mode)) as real;
    if mode.FT4? {
      assert SlotSamples(mode) == 90000;
      assert FirstSlot(capture, mode) == c * 7.5 && capture / 7.5 <= c < capture / 7.5 + 1.0;
    } else {
      assert SlotSamples(mode) == 180000;
      assert FirstSlot(capture, mode) == c * 15.0 && capture / 15.0 <= c < capture / 15.0 + 1.0;
    }
    RoundClose((FirstSlot(capture, mode) - capture) * TARGET_RATE);
  }

  lemma CeilingBounds(q: real)
    ensures q <= Ceiling(q) as real < q + 1.0
  {
  }

  lemma RoundClose(x: real)
    ensures -0.5 <= x - Round(x) as real <= 0.5
    ensures x - Round(x) as real == 0.5 || x - Round(x) as real == -0.5 ==> Round(x) % 2 == 0
    ensures 0.0 <= x < 90000.0 ==> 0 <= Round(x) <= 90000
    ensures 0.0 <= x < 180000.0 ==> 0 <= Round(x) <= 180000
  {
  }

  // ---------------------------------------------------------------- specification

  /** The audio that counts: everything heard after the alignment prefix. */
  function Aligned(stream: seq<real>, align: nat): seq<real> {
    if |stream| <= align then [] else stream[align..]
  }

  lemma SlotFits(n: nat, len: nat, total: nat)
    requires n > 0 && n * len <= total
    ensures (n - 1) * len + len == n * len && (n - 1) * len <= total
  {
    assert (n - 1) * len == n * len - len;
  }

  /** When slot n begins. */
  function SlotTime(slot0: real, n: nat, seconds: real): real {
    slot0 + n as real * seconds
  }

  /** The first n consecutive pieces of the given length, stamped one slot time apart. */
  function Slices(data: seq<real>, len: nat, n: nat, slot0: real, seconds: real): (r: seq<Slot>)
    requires n * len <= |data|
    ensures |r| == n
  {
    if n == 0 then []
    else
      SlotFits(n, len, |data|);
      Slices(data, len, n - 1, slot0, seconds)
      + [Slot(data[(n - 1) * len..n * len], SlotTime(slot0, n - 1, seconds))]
  }

  /** All the slots a stream contains. */
  function SlotsOf(data: seq<real>, len: nat, slot0: real, seconds: real): seq<Slot>
    requires len >= 1
  {
    WholeSlots(|data|, len);
    Slices(data, len, |data| / len, slot0, seconds)
  }

  lemma WholeSlots(total: nat, len: nat)
    requires len >= 1
    ensures (total / len) * len <= total < (total / len) * len + len
  {
    assert total == len * (total / len) + total % len;
  }

  lemma {:induction false} SlicesGrow(data: seq<real>, more: seq<real>, len: nat, n: nat, slot0: real, seconds: real)
    requires n * len <= |data|
    ensures n * len <= |data + more|
    ensures Slices(data + more, len, n, slot0, seconds) == Slices(data, len, n, slot0, seconds)
  {
    if n > 0 {
      SlotFits(n, len, |data|);
      SlicesGrow(data, more, len, n - 1, slot0, seconds);
      assert (data + more)[(n - 1) * len..n * len] == data[(n - 1) * len..n * len];
    }
  }

  lemma AlignedGrows(stream: seq<real>, audio: seq<real>, align: nat)
    ensures Aligned(stream + audio, align) ==
      Aligned(stream, align) + (if |stream| >= align then audio
                                else if |stream| + |audio| <= align then []
                                else audio[align - |stream|..])
  {
  }

  /** What is left of a chunk once the rest of the prefix has been dropped. */
  lemma AfterPrefix(stream: seq<real>, audio: seq<real>, align: nat, rest: seq<real>)
    requires var missing := if |stream| >= align then 0 else align - |stream|;
      rest == audio[if missing < |audio| then missing else |audio|..]
    ensures Aligned(stream + audio, align) == Aligned(stream, align) + rest
    ensures rest == [] ==> Aligned(stream + audio, align) == Aligned(stream, align)
  {
    AlignedGrows(stream, audio, align);
  }

  /** The first n slots of the data have been handed over, and the rest is pending. */
  ghost predicate CutUp(data: seq<real>, pending: seq<real>, len: nat, n: nat, slots: seq<Slot>,
                        slot0: real, seconds: real) {
    n * len <= |data| && pending == data[n * len..] && slots == Slices(data, len, n, slot0, seconds)
  }

  /** Handing over one more slot: what the front of the buffer is, and what is left. */
  lemma NextSlice(data: seq<real>, pending: seq<real>, len: nat, n: nat, slots: seq<Slot>, slot0: real, seconds: real)
    requires CutUp(data, pending, len, n, slots, slot0, seconds) && |pending| >= len >= 1
    ensures CutUp(data, pending[len..], len, n + 1,
                  slots + [Slot(pending[..len], SlotTime(slot0, n, seconds))], slot0, seconds)
  {
    assert (n + 1) * len == n * len + len;
    assert pending[..len] == data[n * len..(n + 1) * len];
  }

  lemma MorePending(data: seq<real>, pending: seq<real>, more: seq<real>, len: nat, n: nat, slots: seq<Slot>,
                    slot0: real, seconds: real)
    requires CutUp(data, pending, len, n, slots, slot0, seconds)
    ensures CutUp(data + more, pending + more, len, n, slots, slot0, seconds)
  {
    hide Slices;
    SlicesGrow(data, more, len, n, slot0, seconds);
  }

  /** With less than a slot pending, the slots handed over are all there are. */
  lemma AllCut(data: seq<real>, pending: seq<real>, len: nat, n: nat, slots: seq<Slot>, slot0: real, seconds: real)
    requires CutUp(data, pending, len, n, slots, slot0, seconds) && |pending| < len
    ensures slots == SlotsOf(data, len, slot0, seconds)
  {
    DivModUnique(|data|, len, n, |pending|);
  }

  lemma NothingCut(len: nat, slot0: real, seconds: real)
    ensures CutUp([], [], len, 0, [], slot0, seconds)
  {
  }

  // ---------------------------------------------------------------- the demodulator's buffer

  class WSJTDemodulator {
    const mode: Mode
    const slotSamples: nat
    const slotSeconds: real
    var buffer: array<real>
    var bufferFill: nat
    var alignRemaining: nat
    var slot0: Option<real>
    var slotIndex: nat

    /** Slots handed to the decoder since the last reset. */
    var slots: seq<Slot>
    /** Audio received since the last reset, and the length of the prefix to drop. */
    ghost var stream: seq<real>
    ghost var align: nat

    ghost function Data(): seq<real>
      reads this
    {
      Aligned(stream, align)
    }

    /** The buffer holds what follows the first slotIndex slots, which have been handed over. */
    ghost predicate Cut()
      reads this, buffer
    {
      && slot0.Some? && bufferFill <= buffer.Length
      && CutUp(Data(), buffer[..bufferFill], slotSamples, slotIndex, slots, slot0.value, slotSeconds)
    }

    ghost predicate Valid()
      reads this, buffer
    {
      && slotSamples == SlotSamples(mode) >= 1 && slotSeconds == SlotSeconds(mode)
      && buffer.Length >= 1 && bufferFill < slotSamples
      && alignRemaining == (if |stream| >= align then 0 else align - |stream|)
      && (slot0 == None ==> stream == [] && align == 0 && bufferFill == 0 && slotIndex == 0 && slots == [])
      && (slot0.Some? ==> Cut())
    }

    constructor (mode: Mode)
      ensures Valid() && slot0 == None && fresh(buffer)
      ensures this.mode == mode && stream == []
    {
      this.mode := mode;
      slotSamples, slotSeconds := SlotSamples(mode), SlotSeconds(mode);
      buffer := new real[2 * SlotSamples(mode)];
      bufferFill, alignRemaining, slot0, slotIndex := 0, 0, None, 0;
      slots, stream, align := [], [], 0;
    }

    method ResetSlotState()
      requires Valid()
      modifies this`bufferFill, this`alignRemaining, this`slot0, this`slotIndex, this`slots, this`stream, this`align
      ensures Valid() && slot0 == None && stream == []
    {
      bufferFill, alignRemaining, slot0, slotIndex := 0, 0, None, 0;
      slots, stream, align := [], [], 0;
    }

    /** Appends audio, moving to a larger array when it does not fit. */
    method AppendToBuffer(audio: seq<real>)
      requires bufferFill <= buffer.Length
      modifies this`buffer, this`bufferFill, buffer
      ensures bufferFill == old(bufferFill) + |audio| <= buffer.Length
      ensures buffer[..bufferFill] == old(buffer[..bufferFill]) + audio
      ensures buffer == old(buffer) || fresh(buffer)
      ensures buffer.Length >= old(buffer.Length)
    {
      var needed := bufferFill + |audio|;
      ghost var before := buffer[..bufferFill];
      if needed > buffer.Length {
        Enlarge(if needed > buffer.Length * 2 then needed else buffer.Length * 2);
      }
      Store(bufferFill, audio);
      assert buffer[..needed] == before + audio;
      bufferFill := needed;
    }

    /** Moves to a larger array with the same contents. */
    method Enlarge(newCap: nat)
      requires bufferFill <= buffer.Length <= newCap
      modifies this`buffer
      ensures fresh(buffer) && buffer.Length == newCap
      ensures buffer[..bufferFill] == old(buffer[..bufferFill])
    {
      var larger := new real[newCap];
      for i := 0 to bufferFill
        modifies larger
        invariant forall k :: 0 <= k < i ==> larger[k] == buffer[k]
      {
        larger[i] := buffer[i];
      }
      assert larger[..bufferFill] == buffer[..bufferFill];
      buffer := larger;
    }

    /** buffer[at : at + |audio|] = audio */
    method Store(at: nat, audio: seq<real>)
      requires at + |audio| <= buffer.Length
      modifies buffer
      ensures buffer[..at] == old(buffer[..at]) && buffer[at..at + |audio|] == audio
    {
      for i := 0 to |audio|
        invariant buffer[..at] == old(buffer[..at])
        invariant forall k :: 0 <= k < i ==> buffer[at + k] == audio[k]
      {
        buffer[at + i] := audio[i];
      }
    }

    /** Moves the unconsumed tail to the front of the buffer, in place. */
    method ShiftDown(tail: nat)
      requires slotSamples + tail <= buffer.Length
      modifies buffer
      ensures buffer[..tail] == old(buffer[slotSamples..slotSamples + tail])
    {
      ghost var kept := buffer[slotSamples..slotSamples + tail];
      for i := 0 to tail
        invariant forall k :: 0 <= k < i ==> buffer[k] == old(buffer[slotSamples + k])
        invariant forall k :: i <= k < buffer.Length ==> buffer[k] == old(buffer[k])
      {
        buffer[i] := buffer[slotSamples + i];
      }
      forall k | 0 <= k < tail ensures buffer[..tail][k] == kept[k] {
        assert kept[k] == old(buffer[slotSamples + k]);
      }
    }

    /** Cuts one slot off the front of the buffer. */
    method CutSlot()
      requires slotSamples >= 1 && Cut() && bufferFill >= slotSamples
      modifies this`bufferFill, this`slotIndex, this`slots, buffer
      ensures Cut() && bufferFill == old(bufferFill) - slotSamples
    {
      hide CutUp, Aligned, SlotTime;
      ghost var data, pending := Data(), buffer[..bufferFill];
      ghost var n, before := slotIndex, slots;
      NextSlice(data, pending, slotSamples, n, before, slot0.value, slotSeconds);
      var slot := TakeFront();
      assert slot == pending[..slotSamples] && buffer[..bufferFill] == pending[slotSamples..];
      var slotUtc := SlotTime(slot0.value, slotIndex, slotSeconds);
      slotIndex := slotIndex + 1;
      slots := slots + [Slot(slot, slotUtc)];
      assert Data() == data;
    }

    /** Copies the first slot out and shifts the unconsumed tail down. */
    method TakeFront() returns (slot: seq<real>)
      requires slotSamples <= bufferFill <= buffer.Length
      modifies this`bufferFill, buffer
      ensures bufferFill == old(bufferFill) - slotSamples
      ensures slot == old(buffer[..bufferFill])[..slotSamples]
      ensures buffer[..bufferFill] == old(buffer[..bufferFill])[slotSamples..]
    {
      slot := buffer[..slotSamples];
      var tail := bufferFill - slotSamples;
      ghost var before := buffer[..bufferFill];
      assert before[slotSamples..] == buffer[slotSamples..slotSamples + tail];
      if tail > 0 {
        ShiftDown(tail);
      }
      bufferFill := tail;
    }

    /** Takes a chunk of audio captured at the given time. Only the first chunk's time matters:
        it fixes the slot grid. */
    method Demodulate(audio: seq<real>, capture: real)
      requires Valid()
      modifies this, buffer
      ensures Valid() && stream == old(stream) + audio
      ensures buffer == old(buffer) || fresh(buffer)
      ensures old(slot0) == None && audio != [] ==>
        slot0 == Some(FirstSlot(capture, mode)) && align == AlignSamples(capture, mode)
      ensures old(slot0).Some? || audio == [] ==> slot0 == old(slot0) && align == old(align)
      ensures slot0.Some? ==> slots == SlotsOf(Aligned(stream, align), slotSamples, slot0.value, slotSeconds)
      ensures slot0.Some? ==> bufferFill < slotSamples
    {
      hide CutUp, SlotsOf, Aligned, AlignSamples, FirstSlot, SlotSamples, SlotSeconds;
      if audio == [] {
        assert stream + audio == stream;
        AllHandedOver();
        return;
      }
      if slot0 == None {
        Anchor(capture);
      }
      var rest := audio;
      if alignRemaining > 0 {
        var drop := if alignRemaining < |audio| then alignRemaining else |audio|;
        rest := audio[drop..];
        alignRemaining := alignRemaining - drop;
      }
      AfterPrefix(stream, audio, align, rest);
      if rest == [] {
        stream := stream + audio;
        AllHandedOver();
        return;
      }
      Feed(rest, audio);
      AllHandedOver();
    }

    /** The first chunk fixes the slot grid. */
    method Anchor(capture: real)
      requires Valid() && slot0 == None
      modifies this`slot0, this`alignRemaining, this`align
      ensures Valid() && slot0 == Some(FirstSlot(capture, mode)) && align == AlignSamples(capture, mode)
    {
      hide CutUp, FirstSlot, AlignSamples;
      Alignment(capture, mode);
      NothingCut(slotSamples, FirstSlot(capture, mode), slotSeconds);
      slot0 := Some(FirstSlot(capture, mode));
      alignRemaining := AlignSamples(capture, mode);
      align := alignRemaining;
      assert Data() == [] && buffer[..bufferFill] == [];
    }

    /** Appends what is left of a chunk and cuts off every complete slot. */
    method Feed(rest: seq<real>, ghost audio: seq<real>)
      requires slotSamples >= 1 && bufferFill < slotSamples && buffer.Length >= 1 && Cut()
      requires Aligned(stream + audio, align) == Aligned(stream, align) + rest
      modifies this`buffer, this`bufferFill, this`slotIndex, this`slots, this`stream, buffer
      ensures Cut() && bufferFill < slotSamples && stream == old(stream) + audio && buffer.Length >= 1
      ensures buffer == old(buffer) || fresh(buffer)
    {
      hide CutUp, Aligned;
      MorePending(Data(), buffer[..bufferFill], rest, slotSamples, slotIndex, slots, slot0.value, slotSeconds);
      AppendToBuffer(rest);
      stream := stream + audio;
      while bufferFill >= slotSamples
        invariant Cut() && stream == old(stream) + audio
        invariant buffer.Length >= 1 && (buffer == old(buffer) || fresh(buffer))
        decreases bufferFill
      {
        CutSlot();
      }
    }

    /** With less than a slot buffered, the slots handed over are all there are. */
    lemma AllHandedOver()
      requires slotSamples >= 1 && bufferFill < slotSamples && (slot0.Some? ==> Cut())
      ensures slot0.Some? ==> slots == SlotsOf(Aligned(stream, align), slotSamples, slot0.value, slotSeconds)
    {
      hide CutUp, SlotsOf, Aligned;
      if slot0.Some? {
        AllCut(Data(), buffer[..bufferFill], slotSamples, slotIndex, slots, slot0.value, slotSeconds);
      }
    }
  }

  // ---------------------------------------------------------------- whole runs

  datatype Chunk = Chunk(audio: seq<real>, capture: real)

  function AudioOf(chunks: seq<Chunk>): seq<real> {
    if chunks == [] then [] else AudioOf(chunks[..|chunks| - 1]) + chunks[|chunks| - 1].audio
  }

  /** When the first chunk that has any audio was captured. */
  function FirstCapture(chunks: seq<Chunk>): Option<real> {
    if chunks == [] then None
    else
      var earlier := FirstCapture(chunks[..|chunks| - 1]);
      var last := chunks[|chunks| - 1];
      if earlier.Some? then earlier else if last.audio == [] then None else Some(last.capture)
  }

  /** What slicing means, in samples and seconds: on the grid of multiples of the slot time, slot 0
      begins at the first one not before the capture time of the first sample; the samples before it,
      to the nearest, are dropped; slot i is the i-th piece of what follows, stamped i slot times
      later, and less than one piece is left over. */
  ghost predicate SlicedFrom(slots: seq<Slot>, audio: seq<real>, capture: real, mode: Mode) {
    var seconds := if mode.FT4? then 7.5 else 15.0;
    var len := if mode.FT4? then 90000 else 180000;
    exists first: real, drop: nat ::
      && WholeMultiple(first, seconds) && capture <= first < capture + seconds
      && Nearest((first - capture) * 12000.0, drop)
      && PiecesOf(slots, audio, drop, len) && StampedFrom(slots, first, seconds)
  }

  /** The nearest whole number, the even one of two. */
  predicate Nearest(x: real, n: int) {
    var error := x - n as real;
    -0.5 <= error <= 0.5 && (error == 0.5 || error == -0.5 ==> n % 2 == 0)
  }

  ghost predicate PiecesOf(slots: seq<Slot>, audio: seq<real>, drop: nat, len: nat) {
    var rest := if |audio| <= drop then 0 else |audio| - drop;
    && |slots| * len <= rest < |slots| * len + len
    && forall i: nat :: i < |slots| ==> IsPiece(slots[i].audio, audio, drop + i * len, len)
  }

  predicate IsPiece(piece: seq<real>, audio: seq<real>, start: nat, len: nat) {
    |piece| == len && start + len <= |audio| && forall x :: 0 <= x < len ==> piece[x] == audio[start + x]
  }

  ghost predicate StampedFrom(slots: seq<Slot>, first: real, seconds: real) {
    forall i: nat :: i < |slots| ==> slots[i].utc == first + i as real * seconds
  }

  lemma {:induction false} SlicesArePieces(data: seq<real>, len: nat, n: nat, slot0: real, seconds: real, i: nat)
    requires n * len <= |data| && i < n
    ensures i * len + len <= |data|
    ensures Slices(data, len, n, slot0, seconds)[i] == Slot(data[i * len..i * len + len], SlotTime(slot0, i, seconds))
  {
    hide SlotTime;
    SlotFits(n, len, |data|);
    if i < n - 1 {
      SlicesArePieces(data, len, n - 1, slot0, seconds, i);
    } else {
      var start := (n - 1) * len;
      assert i * len == start && n * len == start + len;
    }
  }

  lemma AlignedPiece(audio: seq<real>, drop: nat, start: nat, len: nat, piece: seq<real>)
    requires start + len <= |Aligned(audio, drop)| && piece == Aligned(audio, drop)[start..start + len] && len >= 1
    ensures IsPiece(piece, audio, drop + start, len)
  {
  }

  /** The slots of the aligned stream are what slicing means. */
  lemma SlotsAreSliced(audio: seq<real>, capture: real, mode: Mode)
    requires AlignSamples(capture, mode) >= 0 && SlotSamples(mode) >= 1
    ensures SlicedFrom(SlotsOf(Aligned(audio, AlignSamples(capture, mode)), SlotSamples(mode),
                               FirstSlot(capture, mode), SlotSeconds(mode)), audio, capture, mode)
  {
    hide AlignSamples, FirstSlot, Slices, WholeMultiple, IsPiece;
    Alignment(capture, mode);
    var drop, len, first := AlignSamples(capture, mode), SlotSamples(mode), FirstSlot(capture, mode);
    var data := Aligned(audio, drop);
    var n := |data| / len;
    var slots := SlotsOf(data, len, first, SlotSeconds(mode));
    WholeSlots(|data|, len);
    assert len == if mode.FT4? then 90000 else 180000;
    forall i: nat | i < n
      ensures IsPiece(slots[i].audio, audio, drop + i * len, len)
      ensures slots[i].utc == first + i as real * SlotSeconds(mode)
    {
      SlicesArePieces(data, len, n, first, SlotSeconds(mode), i);
      AlignedPiece(audio, drop, i * len, len, slots[i].audio);
    }
    assert Nearest((first - capture) * 12000.0, drop);
    assert PiecesOf(slots, audio, drop, len) && StampedFrom(slots, first, SlotSeconds(mode));
  }

  /** The capture time of the first chunk that has any audio. */
  ghost predicate CapturedAt(chunks: seq<Chunk>, capture: real) {
    exists i: nat :: i < |chunks| && chunks[i].audio != [] && chunks[i].capture == capture
      && forall j: nat :: j < i ==> chunks[j].audio == []
  }

  lemma {:induction false} FirstCaptureIs(chunks: seq<Chunk>)
    ensures FirstCapture(chunks).Some? ==> CapturedAt(chunks, FirstCapture(chunks).value)
    ensures FirstCapture(chunks).None? ==> forall c :: c in chunks ==> c.audio == []
  {
    if chunks != [] {
      var n := |chunks| - 1;
      FirstCaptureIs(chunks[..n]);
      if FirstCapture(chunks[..n]).Some? {
        var i: nat :| i < n && chunks[..n][i].audio != [] && chunks[..n][i].capture == FirstCapture(chunks).value
          && forall j: nat :: j < i ==> chunks[..n][j].audio == [];
        assert chunks[i].audio != [] && forall j: nat :: j < i ==> chunks[j] == chunks[..n][j];
      } else {
        assert forall j: nat :: j < n ==> chunks[j] == chunks[..n][j] && chunks[j] in chunks[..n];
      }
    }
  }

  /** Any chunking: the slots decoded are the consecutive slots of the whole audio after the
      alignment prefix, stamped from the first boundary on. */
  method RunDemodulator(mode: Mode, chunks: seq<Chunk>) returns (slots: seq<Slot>)
    ensures (forall c :: c in chunks ==> c.audio == []) ==> slots == []
    ensures forall capture :: CapturedAt(chunks, capture) ==> SlicedFrom(slots, AudioOf(chunks), capture, mode)
    ensures FirstCapture(chunks) == None ==> slots == []
    ensures SlotSamples(mode) >= 1
    ensures FirstCapture(chunks).Some? ==>
      var capture := FirstCapture(chunks).value;
      AlignSamples(capture, mode) >= 0
      && slots == SlotsOf(Aligned(AudioOf(chunks), AlignSamples(capture, mode)), SlotSamples(mode),
                          FirstSlot(capture, mode), SlotSeconds(mode))
  {
    hide SlotsOf, Aligned, AlignSamples, FirstSlot, CapturedAt, SlicedFrom;
    var d := new WSJTDemodulator(mode);
    for i := 0 to |chunks|
      invariant d.Valid() && d.mode == mode && fresh(d) && fresh(d.buffer)
      invariant d.stream == AudioOf(chunks[..i])
      invariant FirstCapture(chunks[..i]) == None ==> d.slot0 == None
      invariant FirstCapture(chunks[..i]).Some? ==>
        var capture := FirstCapture(chunks[..i]).value;
        && d.slot0 == Some(FirstSlot(capture, mode)) && d.align == AlignSamples(capture, mode)
        && d.slots == SlotsOf(Aligned(d.stream, d.align), d.slotSamples, d.slot0.value, d.slotSeconds)
    {
      assert chunks[..i + 1][..i] == chunks[..i];
      d.Demodulate(chunks[i].audio, chunks[i].capture);
    }
    assert chunks[..|chunks|] == chunks;
    slots := d.slots;
    FirstCaptureIs(chunks);
    if FirstCapture(chunks).Some? {
      OneCapture(chunks, FirstCapture(chunks).value);
      SlotsAreSliced(AudioOf(chunks), FirstCapture(chunks).value, mode);
    } else {
      NoCapture(chunks);
    }
  }

  lemma OneCapture(chunks: seq<Chunk>, capture: real)
    requires CapturedAt(chunks, capture)
    ensures forall other :: CapturedAt(chunks, other) ==> other == capture
    ensures exists c :: c in chunks && c.audio != []
  {
    var i: nat :| i < |chunks| && chunks[i].audio != [] && chunks[i].capture == capture
      && forall j: nat :: j < i ==> chunks[j].audio == [];
    assert chunks[i] in chunks;
  }

  lemma NoCapture(chunks: seq<Chunk>)
    requires forall c :: c in chunks ==> c.audio == []
    ensures forall capture :: !CapturedAt(chunks, capture)
  {
  }
}
