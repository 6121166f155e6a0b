/** The ADS-B message detector: which of the readings of a candidate are believed, what is learned
    from them, and what is reported. */
module AdsbDetect {
  import opened Options
  import opened Words
  import opened Crc24
  import opened AdsbSlicer

  // ---------------------------------------------------------------- messages

  type Address = Rem

  function DownlinkFormat(first: Byte): (df: nat)
    ensures df < 32
  {
    assert Power2(5) == 32;
    Value(first[3..])
  }

  predicate LongFormat(df: nat) {
    df == 16 || df == 17 || df == 18 || df == 20 || df == 21
  }

  predicate ShortFormat(df: nat) {
    df == 0 || df == 4 || df == 5 || df == 11
  }

  /** What a candidate reads at one phase: a message whose length its format tells, or nothing if
      the format is unknown. */
  function MessageAt(mag: seq<int>, j: nat, phase: nat): seq<Byte>
    requires j + 290 < |mag| && phase <= 8
  {
    CandidatesInBounds(mag, j, phase, 1);
    CandidatesInBounds(mag, j, phase, 7);
    CandidatesInBounds(mag, j, phase, 14);
    var df := DownlinkFormat(Extracted(mag, j + 19, phase, 1)[0]);
    if LongFormat(df) then Extracted(mag, j + 19, phase, 14)
    else if ShortFormat(df) then Extracted(mag, j + 19, phase, 7)
    else []
  }

  function FormatOf(msg: seq<Byte>): nat {
    if msg == [] then 31 else DownlinkFormat(msg[0])
  }

  function CrcOf(msg: seq<Byte>): Rem {
    Divide(MessageBits(msg))
  }

  /** The address in bytes 1 to 3. */
  function Sender(msg: seq<Byte>): Address {
    if |msg| < 4 then Zero(24)
    else
      var low: Bits := msg[3];
      low + msg[2] + msg[1]
  }

  /** An extended squitter whose check is correct. */
  predicate Squitter(msg: seq<Byte>) {
    (FormatOf(msg) == 17 || FormatOf(msg) == 18) && CrcOf(msg) == Zero(24)
  }

  /** An all-call reply with a plausible interrogator number in its check. */
  predicate AllCall(msg: seq<Byte>) {
    FormatOf(msg) == 11 && Value(CrcOf(msg)) <= 80
  }

  /** A message of the other formats: its check yields the sender's address. */
  predicate Overlaid(msg: seq<Byte>) {
    msg != [] && FormatOf(msg) != 11 && FormatOf(msg) != 17 && FormatOf(msg) != 18
  }

  /** The first byte read alone is the first byte of the message. */
  lemma FirstByte(mag: seq<int>, j: nat, phase: nat)
    requires j + 290 < |mag| && phase <= 8
    ensures var msg := MessageAt(mag, j, phase);
      && (msg != [] ==> FormatOf(msg) == DownlinkFormat(Extracted(mag, j + 19, phase, 1)[0]))
      && (msg != [] ==> |msg| == if LongFormat(FormatOf(msg)) then 14 else 7)
      && (msg != [] ==> LongFormat(FormatOf(msg)) || ShortFormat(FormatOf(msg)))
  {
    CandidatesInBounds(mag, j, phase, 1);
    CandidatesInBounds(mag, j, phase, 7);
    CandidatesInBounds(mag, j, phase, 14);
    hide DownlinkFormat;
    assert Extracted(mag, j + 19, phase, 1)[0] == MessageByte(mag, j + 19, phase, 1, 0);
    SameByte(mag, j + 19, phase, 1, 7);
    SameByte(mag, j + 19, phase, 1, 14);
  }

  lemma SameByte(mag: seq<int>, start: nat, phase: nat, n: nat, m: nat)
    requires n >= 1 && m >= 1 && InBounds(mag, start, phase, n) && InBounds(mag, start, phase, m)
    ensures MessageByte(mag, start, phase, n, 0) == MessageByte(mag, start, phase, m, 0)
  {
  }

  /** Nine formats are read; a message is long exactly when its first bit is set. */
  lemma LengthsExactly(mag: seq<int>, j: nat, phase: nat)
    requires j + 290 < |mag| && phase <= 8
    ensures InBounds(mag, j + 19, phase, 1)
    ensures var first, msg := Extracted(mag, j + 19, phase, 1)[0], MessageAt(mag, j, phase);
      && (msg != [] <==> ByteValue(first) / 8 in {0, 4, 5, 11, 16, 17, 18, 20, 21})
      && (msg != [] ==> msg[0] == first && |msg| == if first[7] then 14 else 7)
  {
    hide Extracted, DownlinkFormat, ByteValue;
    CandidatesInBounds(mag, j, phase, 1);
    CandidatesInBounds(mag, j, phase, 7);
    CandidatesInBounds(mag, j, phase, 14);
    var first := Extracted(mag, j + 19, phase, 1)[0];
    FormatValue(first);
    TopBit(first);
    FirstExtracted(mag, j + 19, phase, 7);
    FirstExtracted(mag, j + 19, phase, 14);
  }

  lemma FirstExtracted(mag: seq<int>, start: nat, phase: nat, n: nat)
    requires n >= 1 && InBounds(mag, start, phase, n) && InBounds(mag, start, phase, 1)
    ensures Extracted(mag, start, phase, 1)[0] == Extracted(mag, start, phase, n)[0]
  {
    hide MessageByte;
    SameByte(mag, start, phase, 1, n);
  }

  lemma TopBit(b: Byte)
    ensures b[7] <==> ByteValue(b) / 8 >= 16
  {
    assert b[..7] + b[7..] == b && b[7..] == [b[7]];
    ValueAppend(b[..7], b[7..]);
    ByteIsValue(b);
    assert Power2(7) == 128;
    assert Value([b[7]]) == if b[7] then 1 else 0 by { assert [b[7]][1..] == []; }
  }

  method ExtractAt(mag: seq<int>, j: nat, phase: nat) returns (msg: seq<Byte>)
    requires j + 290 < |mag| && phase <= 8
    ensures msg == MessageAt(mag, j, phase)
  {
    CandidatesInBounds(mag, j, phase, 1);
    CandidatesInBounds(mag, j, phase, 7);
    CandidatesInBounds(mag, j, phase, 14);
    var first := ExtractMsg(mag, j + 19, phase, 1);
    var df := DownlinkFormat(first[0]);
    if LongFormat(df) {
      msg := ExtractMsg(mag, j + 19, phase, 14);
    } else if ShortFormat(df) {
      msg := ExtractMsg(mag, j + 19, phase, 7);
    } else {
      msg := [];
    }
  }

  // ---------------------------------------------------------------- addresses

  /** The addresses known and those heard of once, with the room there is for each. */
  datatype Book = Book(known: seq<Address>, pending: seq<Address>, maxKnown: nat, maxPending: nat)

  /** How far a message can be believed. */
  function Rank(msg: seq<Byte>, b: Book): (rank: int)
    ensures rank == -1 || 200 <= rank <= 1000
  {
    if Squitter(msg) then (if Sender(msg) in b.known then 1000 else 500)
    else if AllCall(msg) then
      if Sender(msg) in b.known then 400
      else if Sender(msg) in b.pending then 200
      else -1
    else if Overlaid(msg) && CrcOf(msg) in b.known then 300
    else -1
  }

  /** A reading of an all-call reply from an address not known yet: the second one makes it known,
      the first makes it pending, as far as there is room. */
  function Noted(b: Book, msg: seq<Byte>): Book {
    var a := Sender(msg);
    if !AllCall(msg) || a in b.known then b
    else if a in b.pending then (if |b.known| < b.maxKnown then b.(known := b.known + [a]) else b)
    else if |b.pending| < b.maxPending then b.(pending := b.pending + [a])
    else b
  }

  /** A message that names its sender outright. */
  predicate Names(msg: seq<Byte>) {
    FormatOf(msg) == 11 || FormatOf(msg) == 17 || FormatOf(msg) == 18
  }

  /** What reporting a message adds. */
  function Accepted(b: Book, msg: seq<Byte>): Book {
    if Names(msg) && Sender(msg) !in b.known && |b.known| < b.maxKnown
    then b.(known := b.known + [Sender(msg)]) else b
  }

  ghost predicate Contains(b: Book, c: Book) {
    && (forall a :: a in b.known ==> a in c.known)
    && (forall a :: a in b.pending ==> a in c.pending)
    && |b.known| <= |c.known| && |b.pending| <= |c.pending|
    && b.maxKnown == c.maxKnown && b.maxPending == c.maxPending
  }

  /** Knowing more never lowers a rank. */
  lemma RankGrows(msg: seq<Byte>, b: Book, c: Book)
    requires Contains(b, c)
    ensures Rank(msg, b) <= Rank(msg, c)
  {
    hide Squitter, AllCall, Overlaid, CrcOf, Sender;
  }

  /** 500 or more is for squitters with a correct check only; what else is accepted, exactly. */
  lemma RankMeans(msg: seq<Byte>, b: Book)
    ensures Rank(msg, b) >= 500 <==> Squitter(msg)
    ensures !Squitter(msg) ==> (Rank(msg, b) > 0 <==>
      if AllCall(msg) then Sender(msg) in b.known || Sender(msg) in b.pending
      else Overlaid(msg) && CrcOf(msg) in b.known)
  {
    hide Squitter, AllCall, Overlaid, CrcOf, Sender;
  }

  /** Which of two messages outranks the other: squitters before all-call replies from known senders,
      before messages with a known address overlaid, before replies from pending senders; and among
      squitters those from known senders first. */
  lemma RankOrder(m: seq<Byte>, n: seq<Byte>, b: Book)
    requires Rank(m, b) > 0 && Rank(n, b) > 0
    ensures Squitter(m) && Squitter(n) ==>
      (Rank(m, b) > Rank(n, b) <==> Sender(m) in b.known && Sender(n) !in b.known)
    ensures Squitter(m) && !Squitter(n) ==> Rank(m, b) > Rank(n, b)
    ensures AllCall(m) && AllCall(n) ==>
      (Rank(m, b) > Rank(n, b) <==> Sender(m) in b.known && Sender(n) !in b.known)
    ensures AllCall(m) && Overlaid(n) ==> (Rank(m, b) > Rank(n, b) <==> Sender(m) in b.known)
    ensures AllCall(m) && Overlaid(n) ==> Rank(m, b) != Rank(n, b)
    ensures Overlaid(m) && Overlaid(n) ==> Rank(m, b) == Rank(n, b)
  {
    hide Squitter, AllCall, Overlaid, CrcOf, Sender;
    Apart(m);
    Apart(n);
  }

  lemma Apart(msg: seq<Byte>)
    ensures !(AllCall(msg) && Squitter(msg)) && !(AllCall(msg) && Overlaid(msg))
    ensures !(Squitter(msg) && Overlaid(msg))
  {
    hide CrcOf, DownlinkFormat;
  }

  /** The format is the first byte without its three low bits. */
  lemma FormatValue(first: Byte)
    ensures DownlinkFormat(first) == ByteValue(first) / 8
  {
    hide Value;
    assert first[1..][1..] == first[2..] && first[2..][1..] == first[3..];
    HighBits(first, 0);
    HighBits(first, 1);
    HighBits(first, 2);
  }

  lemma HighBits(w: Bits, k: nat)
    requires k < |w|
    ensures Value(w[k..]) / 2 == Value(w[k..][1..])
  {
  }

  /** The sender's address is the second, third and fourth byte, most significant first. */
  lemma SenderValue(msg: seq<Byte>)
    requires |msg| >= 4
    ensures Value(Sender(msg)) == 0x1_0000 * ByteValue(msg[1]) + 0x100 * ByteValue(msg[2]) + ByteValue(msg[3])
  {
    hide Value, ByteValue;
    var low: Bits := msg[3];
    ValueAppend(low + msg[2], msg[1]);
    ValueAppend(low, msg[2]);
    ByteIsValue(msg[1]);
    ByteIsValue(msg[2]);
    ByteIsValue(msg[3]);
    assert Power2(8) == 0x100;
    assert Power2(16) == 0x1_0000 by { Power2Of32(); }
  }

  lemma ByteIsValue(b: Byte)
    ensures ByteValue(b) == Value(b)
  {
  }

  lemma NotedGrows(b: Book, msg: seq<Byte>)
    ensures Contains(b, Noted(b, msg))
    ensures Contains(b, Accepted(b, msg))
  {
    hide AllCall, Sender, Names;
  }

  // ---------------------------------------------------------------- the five phases of a candidate

  /** The addresses held when a phase of a candidate is tried: each phase tried before has already
      added to them. */
  function HeldAt(mag: seq<int>, j: nat, phase: nat, b: Book): Book
    requires j + 290 < |mag| && 4 <= phase <= 9
  {
    if phase == 4 then b else Noted(HeldAt(mag, j, phase - 1, b), MessageAt(mag, j, phase - 1))
  }

  function ScoreAt(mag: seq<int>, j: nat, phase: nat, b: Book): int
    requires j + 290 < |mag| && 4 <= phase <= 8
  {
    Rank(MessageAt(mag, j, phase), HeldAt(mag, j, phase, b))
  }

  /** The first of the phases below a bound with the best score, if any is accepted. */
  function ChosenBelow(mag: seq<int>, j: nat, phase: nat, b: Book): (p: int)
    requires j + 290 < |mag| && 4 <= phase <= 9
    ensures p == -1 || 4 <= p < phase
  {
    if phase == 4 then -1
    else
      var p := ChosenBelow(mag, j, phase - 1, b);
      if ScoreAt(mag, j, phase - 1, b) > (if p == -1 then -1 else ScoreAt(mag, j, p, b)) then phase - 1 else p
  }

  function Chosen(mag: seq<int>, j: nat, b: Book): (p: int)
    requires j + 290 < |mag|
    ensures p == -1 || 4 <= p <= 8
  {
    ChosenBelow(mag, j, 9, b)
  }

  /** The phase chosen has the best score, and is the first that has; none is chosen only if every
      phase is refused. */
  lemma {:induction false} ChosenIsBest(mag: seq<int>, j: nat, phase: nat, b: Book)
    requires j + 290 < |mag| && 4 <= phase <= 9
    ensures var p := ChosenBelow(mag, j, phase, b);
      && (p == -1 ==> forall q :: 4 <= q < phase ==> ScoreAt(mag, j, q, b) == -1)
      && (p != -1 ==>
            && ScoreAt(mag, j, p, b) > 0
            && (forall q :: 4 <= q < phase ==> ScoreAt(mag, j, q, b) <= ScoreAt(mag, j, p, b))
            && (forall q :: 4 <= q < p ==> ScoreAt(mag, j, q, b) < ScoreAt(mag, j, p, b)))
  {
    hide ScoreAt;
    if phase > 4 {
      ChosenIsBest(mag, j, phase - 1, b);
      ScoreRange(mag, j, phase - 1, b);
    }
  }

  lemma ScoreRange(mag: seq<int>, j: nat, phase: nat, b: Book)
    requires j + 290 < |mag| && 4 <= phase <= 8
    ensures ScoreAt(mag, j, phase, b) == -1 || 200 <= ScoreAt(mag, j, phase, b) <= 1000
  {
    hide Rank, MessageAt, HeldAt;
  }

  /** The score of one phase, and the addresses after it; -1 refuses. */
  method ScorePhase(mag: seq<int>, j: nat, phase: nat, table: seq<Rem>, b: Book)
    returns (score: int, b': Book)
    requires j + 290 < |mag| && 4 <= phase <= 8
    requires |table| == 256 && forall b: Byte :: table[ByteValue(b)] == Entry(b)
    ensures score == Rank(MessageAt(mag, j, phase), b) && b' == Noted(b, MessageAt(mag, j, phase))
  {
    hide Divide, MessageBits, Zero, MessageAt;
    score, b' := -1, b;
    var msg := ExtractAt(mag, j, phase);
    FirstByte(mag, j, phase);
    if msg == [] {
      return;
    }
    var df := DownlinkFormat(msg[0]);
    var crc := Crc24Loop(msg, table);
    var remainder := crc.rem;
    if df == 17 || df == 18 {
      if remainder == Zero(24) {
        score := if Sender(msg) in b.known then 1000 else 500;
      }
    } else if df == 11 {
      if Value(remainder) <= 80 {
        var icao := Sender(msg);
        if icao in b.known {
          score := 400;
        } else if icao in b.pending {
          if |b.known| < b.maxKnown {
            b' := b.(known := b.known + [icao]);
          }
          score := 200;
        } else if |b.pending| < b.maxPending {
          b' := b.(pending := b.pending + [icao]);
        }
      }
    } else if remainder in b.known {
      score := 300;
    }
  }

  /** Tries the phases in turn and keeps the first with the best score. */
  method BestPhase(mag: seq<int>, j: nat, table: seq<Rem>, b: Book) returns (bestPhase: int, b': Book)
    requires j + 290 < |mag|
    requires |table| == 256 && forall b: Byte :: table[ByteValue(b)] == Entry(b)
    ensures bestPhase == Chosen(mag, j, b) && b' == HeldAt(mag, j, 9, b)
  {
    hide MessageAt, Rank, Noted;
    b' := b;
    var bestScore := -1;
    bestPhase := -1;
    for phase := 4 to 9
      invariant b' == HeldAt(mag, j, phase, b) && bestPhase == ChosenBelow(mag, j, phase, b)
      invariant bestScore == if bestPhase == -1 then -1 else ScoreAt(mag, j, bestPhase, b)
    {
      var score;
      score, b' := ScorePhase(mag, j, phase, table, b');
      if score > bestScore {
        bestScore, bestPhase := score, phase;
      }
    }
  }

  lemma {:induction false} HeldGrows(mag: seq<int>, j: nat, p: nat, q: nat, b: Book)
    requires j + 290 < |mag| && 4 <= p <= q <= 9
    ensures Contains(HeldAt(mag, j, p, b), HeldAt(mag, j, q, b))
    decreases q
  {
    hide MessageAt, Noted;
    if p < q {
      HeldGrows(mag, j, p, q - 1, b);
      NotedGrows(HeldAt(mag, j, q - 1, b), MessageAt(mag, j, q - 1));
    }
  }

  // ---------------------------------------------------------------- confirmation of all-call replies

  /** A phase of a candidate reads an all-call reply from an address. */
  predicate Reads(mag: seq<int>, j: nat, phase: nat, a: Address) {
    j + 290 < |mag| && 4 <= phase <= 8 && AllCall(MessageAt(mag, j, phase)) && Sender(MessageAt(mag, j, phase)) == a
  }

  /** Confirmation, exactly. An all-call reply from an address neither known nor pending when its
      candidate is reached is accepted at a phase if and only if some earlier phase of the same
      candidate read a reply from that address and there was room to note it. */
  lemma ConfirmedExactly(mag: seq<int>, j: nat, phase: nat, b: Book)
    requires j + 290 < |mag| && 4 <= phase <= 8 && AllCall(MessageAt(mag, j, phase))
    requires var a := Sender(MessageAt(mag, j, phase)); a !in b.known && a !in b.pending
    ensures ScoreAt(mag, j, phase, b) > 0 <==>
      exists q :: 4 <= q < phase && Reads(mag, j, q, Sender(MessageAt(mag, j, phase)))
        && |HeldAt(mag, j, q, b).pending| < b.maxPending
  {
    hide MessageAt, AllCall, Sender, HeldAt;
    Apart(MessageAt(mag, j, phase));
    HeardWithRoom(mag, j, phase, b, Sender(MessageAt(mag, j, phase)));
  }

  lemma {:induction false} HeardWithRoom(mag: seq<int>, j: nat, phase: nat, b: Book, a: Address)
    requires j + 290 < |mag| && 4 <= phase <= 9 && a !in b.known && a !in b.pending
    ensures var h := HeldAt(mag, j, phase, b);
      && h.maxPending == b.maxPending
      && (a in h.known || a in h.pending <==>
            exists q :: 4 <= q < phase && Reads(mag, j, q, a) && |HeldAt(mag, j, q, b).pending| < b.maxPending)
  {
    hide MessageAt, AllCall, Sender;
    if phase > 4 {
      HeardWithRoom(mag, j, phase - 1, b, a);
    }
  }

  lemma NotedAdds(h: Book, msg: seq<Byte>, a: Address)
    ensures var heard := AllCall(msg) && Sender(msg) == a;
      && (a in Noted(h, msg).known <==> a in h.known || (heard && a in h.pending && |h.known| < h.maxKnown))
      && (a in Noted(h, msg).pending <==>
            a in h.pending || (heard && a !in h.known && |h.pending| < h.maxPending))
  {
    hide AllCall, Sender;
  }

  /** An address becomes known within a candidate exactly at a phase that reads a reply from it while it
      is pending and there is room. */
  lemma {:induction false} KnownExactly(mag: seq<int>, j: nat, phase: nat, b: Book, a: Address)
    requires j + 290 < |mag| && 4 <= phase <= 9 && a !in b.known
    ensures a in HeldAt(mag, j, phase, b).known <==>
      exists q :: 4 <= q < phase && Reads(mag, j, q, a)
        && a in HeldAt(mag, j, q, b).pending && |HeldAt(mag, j, q, b).known| < b.maxKnown
  {
    hide MessageAt, AllCall, Sender, Noted;
    if phase > 4 {
      KnownExactly(mag, j, phase - 1, b, a);
      HeldGrows(mag, j, 4, phase - 1, b);
      HeldFirst(mag, j, b);
      NotedAdds(HeldAt(mag, j, phase - 1, b), MessageAt(mag, j, phase - 1), a);
    }
  }

  /** It becomes pending exactly at a phase that reads a reply from it while it is not known and there
      is room. */
  lemma {:induction false} PendingExactly(mag: seq<int>, j: nat, phase: nat, b: Book, a: Address)
    requires j + 290 < |mag| && 4 <= phase <= 9 && a !in b.pending
    ensures a in HeldAt(mag, j, phase, b).pending <==>
      exists q :: 4 <= q < phase && Reads(mag, j, q, a)
        && a !in HeldAt(mag, j, q, b).known && |HeldAt(mag, j, q, b).pending| < b.maxPending
  {
    hide MessageAt, AllCall, Sender, Noted;
    if phase > 4 {
      PendingExactly(mag, j, phase - 1, b, a);
      HeldGrows(mag, j, 4, phase - 1, b);
      HeldFirst(mag, j, b);
      NotedAdds(HeldAt(mag, j, phase - 1, b), MessageAt(mag, j, phase - 1), a);
    }
  }

  /** A report makes its sender known exactly if it names one and there is room. */
  lemma ReportTeaches(h: Book, msg: seq<Byte>, a: Address)
    requires a !in h.known
    ensures a in Accepted(h, msg).known <==>
      FormatOf(msg) in {11, 17, 18} && Sender(msg) == a && |h.known| < h.maxKnown
    ensures Accepted(h, msg).pending == h.pending
  {
    hide DownlinkFormat;
  }

  // ---------------------------------------------------------------- the preamble

  /** Threshold, signal and noise of a matched preamble. */
  datatype Levels = Levels(high: int, signal: int, noise: int)

  /** The five pulse shapes a preamble can have, depending on where its pulses fall between
      samples; in the order they are tried. */
  function Preamble(p: seq<int>): Option<Levels>
    requires |p| == 19
  {
    if p[1] > p[2] && p[2] < p[3] && p[3] > p[4] && p[8] < p[9] && p[9] > p[10] && p[10] < p[11] then
      Some(Levels((p[1] + p[3] + p[9] + p[11] + p[12]) / 4, p[1] + p[3] + p[9], p[5] + p[6] + p[7]))
    else if p[1] > p[2] && p[2] < p[3] && p[3] > p[4] && p[8] < p[9] && p[9] > p[10] && p[11] < p[12] then
      Some(Levels((p[1] + p[3] + p[9] + p[12]) / 4, p[1] + p[3] + p[9] + p[12], p[5] + p[6] + p[7] + p[8]))
    else if p[1] > p[2] && p[2] < p[3] && p[4] > p[5] && p[8] < p[9] && p[10] > p[11] && p[11] < p[12] then
      Some(Levels((p[1] + p[3] + p[4] + p[9] + p[10] + p[12]) / 4, p[1] + p[12], p[6] + p[7]))
    else if p[1] > p[2] && p[3] < p[4] && p[4] > p[5] && p[9] < p[10] && p[10] > p[11] && p[11] < p[12] then
      Some(Levels((p[1] + p[4] + p[10] + p[12]) / 4, p[1] + p[4] + p[10] + p[12], p[5] + p[6] + p[7] + p[8]))
    else if p[2] > p[3] && p[3] < p[4] && p[4] > p[5] && p[9] < p[10] && p[10] > p[11] && p[11] < p[12] then
      Some(Levels((p[1] + p[2] + p[4] + p[10] + p[12]) / 4, p[4] + p[10] + p[12], p[6] + p[7] + p[8]))
    else None
  }

  /** A matched preamble that stands out from its noise, with quiet samples around it. */
  predicate Quiet(p: seq<int>)
    requires |p| == 19
  {
    match Preamble(p)
    case None => false
    case Some(l) =>
      && l.signal * 2 >= 3 * l.noise
      && p[5] < l.high && p[6] < l.high && p[7] < l.high && p[8] < l.high
      && p[14] < l.high && p[15] < l.high && p[16] < l.high && p[17] < l.high && p[18] < l.high
  }

  /** The nineteen samples from a place on make a preamble. */
  predicate Plausible(mag: seq<int>, j: nat)
    requires j + 18 < |mag|
  {
    Quiet(mag[j..j + 19])
  }

  // ---------------------------------------------------------------- detection

  const MAX_MESSAGES := 8000

  datatype Found = Found(offset: nat, msg: seq<Byte>)

  /** Samples a message takes, preamble included: 153 for a short one, 288 for a long one. */
  function Span(msg: seq<Byte>): nat {
    if |msg| == 14 then 288 else 153
  }

  /** The state of the search: addresses held, messages reported, and where the next may start. */
  datatype Scan = Scan(book: Book, found: seq<Found>, skip: nat)

  /** One candidate. */
  function Tried(mag: seq<int>, s: Scan, j: nat): Scan
    requires j + 290 < |mag|
  {
    if j < s.skip || !Plausible(mag, j) then s
    else
      var book, p := HeldAt(mag, j, 9, s.book), Chosen(mag, j, s.book);
      if p == -1 || |s.found| >= MAX_MESSAGES then s.(book := book)
      else
        var msg := MessageAt(mag, j, p);
        Scan(Accepted(book, msg), s.found + [Found(j, msg)], j + Span(msg))
  }

  predicate InRange(mag: seq<int>, candidates: seq<nat>) {
    forall c :: 0 <= c < |candidates| ==> candidates[c] + 290 < |mag|
  }

  /** The first n candidates. */
  function Scanned(mag: seq<int>, candidates: seq<nat>, n: nat, b: Book): Scan
    requires InRange(mag, candidates) && n <= |candidates|
  {
    if n == 0 then Scan(b, [], 0) else Tried(mag, Scanned(mag, candidates, n - 1, b), candidates[n - 1])
  }

  /** Cuts the accepted message out again, learns the address it names, and tells where the next
      one may start. */
  method Accept(mag: seq<int>, j: nat, phase: nat, b: Book) returns (msg: seq<Byte>, b': Book, skipUntil: nat)
    requires j + 290 < |mag| && 4 <= phase <= 8 && MessageAt(mag, j, phase) != []
    ensures msg == MessageAt(mag, j, phase) && b' == Accepted(b, msg) && skipUntil == j + Span(msg)
  {
    hide MessageAt, Sender, DownlinkFormat;
    FirstByte(mag, j, phase);
    msg := ExtractAt(mag, j, phase);
    var df := DownlinkFormat(msg[0]);
    b' := b;
    if (df == 17 || df == 18 || df == 11) && Sender(msg) !in b.known && |b.known| < b.maxKnown {
      b' := b.(known := b.known + [Sender(msg)]);
    }
    var msgBits := if (df / 16) % 2 == 1 then 112 else 56;
    skipUntil := j + (msgBits + 8) * 12 / 5;
  }

  /** The detection loop: every candidate in turn, skipping those inside a message already
      reported. The addresses learned are carried from one candidate to the next. */
  method DetectAndDecode(mag: seq<int>, candidates: seq<nat>, table: seq<Rem>, b: Book)
    returns (found: seq<Found>, b': Book)
    requires InRange(mag, candidates)
    requires |table| == 256 && forall b: Byte :: table[ByteValue(b)] == Entry(b)
    ensures var s := Scanned(mag, candidates, |candidates|, b); found == s.found && b' == s.book
  {
    hide MessageAt, Accepted, HeldAt, Plausible, ChosenBelow, ScoreAt, Span;
    found, b' := [], b;
    var skipUntil: nat := 0;
    for ci := 0 to |candidates|
      invariant Scanned(mag, candidates, ci, b) == Scan(b', found, skipUntil)
    {
      var j := candidates[ci];
      if j >= skipUntil && Plausible(mag, j) {
        ChosenIsBest(mag, j, 9, b');
        ghost var before := b';
        var bestPhase;
        bestPhase, b' := BestPhase(mag, j, table, b');
        if bestPhase >= 0 && |found| < MAX_MESSAGES {
          ScoredIsMessage(mag, j, bestPhase, before);
          var msg;
          msg, b', skipUntil := Accept(mag, j, bestPhase, b');
          found := found + [Found(j, msg)];
        }
      }
    }
  }

  lemma ScoredIsMessage(mag: seq<int>, j: nat, phase: nat, b: Book)
    requires j + 290 < |mag| && 4 <= phase <= 8 && ScoreAt(mag, j, phase, b) > 0
    ensures MessageAt(mag, j, phase) != []
  {
    hide MessageAt;
  }

  /** The arrays made for a buffer: the addresses given, and room for more. */
  function Opened(known: seq<Address>, pending: seq<Address>): Book {
    Book(known, pending,
         if |known| + 500 > 1000 then |known| + 500 else 1000,
         if |pending| + 2000 > 4000 then |pending| + 2000 else 4000)
  }

  /** Room for a thousand known addresses and four thousand pending ones, and at any rate for five
      hundred and two thousand more than are given; no more room than that takes. */
  lemma RoomMade(known: seq<Address>, pending: seq<Address>, m: nat, n: nat)
    ensures var b := Opened(known, pending);
      && b.known == known && b.pending == pending
      && (m >= 1000 && m - |known| >= 500 <==> m >= b.maxKnown)
      && (n >= 4000 && n - |pending| >= 2000 <==> n >= b.maxPending)
  {
  }

  predicate Ascending(candidates: seq<nat>) {
    forall a, b :: 0 <= a < b < |candidates| ==> candidates[a] < candidates[b]
  }

  // ---------------------------------------------------------------- where addresses come from

  /** Readings are tried candidate by candidate, phase by phase. */
  predicate Earlier(c: nat, p: nat, c': nat, p': nat) {
    c < c' || (c == c' && p < p')
  }

  /** An all-call reply from an address was read at that phase of that candidate. */
  predicate HeardAt(mag: seq<int>, candidates: seq<nat>, c: nat, p: nat, a: Address) {
    c < |candidates| && Reads(mag, candidates[c], p, a) && Plausible(mag, candidates[c])
  }

  /** Such a reading was made before a place. */
  ghost predicate Heard(mag: seq<int>, candidates: seq<nat>, c: nat, p: nat, a: Address) {
    exists c', p' :: Earlier(c', p', c, p) && HeardAt(mag, candidates, c', p', a)
  }

  /** Two such readings were. */
  ghost predicate HeardTwice(mag: seq<int>, candidates: seq<nat>, c: nat, p: nat, a: Address) {
    exists c', p' :: Earlier(c', p', c, p) && HeardAt(mag, candidates, c', p', a)
      && Heard(mag, candidates, c', p', a)
  }

  /** A squitter from an address was reported. */
  ghost predicate Squittered(found: seq<Found>, a: Address) {
    exists f :: f in found && Squitter(f.msg) && Sender(f.msg) == a
  }

  /** An address has been pending: it was given as such, or heard once. */
  ghost predicate Noticed(mag: seq<int>, candidates: seq<nat>, c: nat, p: nat, b: Book, a: Address) {
    a in b.pending || Heard(mag, candidates, c, p, a)
  }

  /** An address may be known: it was given as such, a squitter from it was reported, or it was heard
      after it had been pending. */
  ghost predicate Earned(mag: seq<int>, candidates: seq<nat>, c: nat, p: nat, b: Book, found: seq<Found>, a: Address) {
    || a in b.known
    || Squittered(found, a)
    || (a in b.pending && Heard(mag, candidates, c, p, a))
    || HeardTwice(mag, candidates, c, p, a)
  }

  /** Every address held before a place has a source. */
  ghost predicate Sourced(mag: seq<int>, candidates: seq<nat>, c: nat, p: nat, b: Book, found: seq<Found>, h: Book) {
    && (forall a :: a in h.known ==> Earned(mag, candidates, c, p, b, found, a))
    && (forall a :: a in h.pending ==> Noticed(mag, candidates, c, p, b, a))
  }

  lemma EarlierTrans(c: nat, p: nat, c': nat, p': nat, c'': nat, p'': nat)
    requires Earlier(c, p, c', p') && (Earlier(c', p', c'', p'') || (c' == c'' && p' == p''))
    ensures Earlier(c, p, c'', p'')
  {
  }

  /** Sources stay sources later on. */
  lemma StillSourced(mag: seq<int>, candidates: seq<nat>, c: nat, p: nat, c': nat, p': nat, b: Book,
                     found: seq<Found>, found': seq<Found>, h: Book)
    requires Sourced(mag, candidates, c, p, b, found, h) && (Earlier(c, p, c', p') || (c == c' && p == p'))
    requires found <= found'
    ensures Sourced(mag, candidates, c', p', b, found', h)
  {
    hide HeardAt, Squitter, Sender;
    forall a | Heard(mag, candidates, c, p, a) ensures Heard(mag, candidates, c', p', a) {
      var d, q :| Earlier(d, q, c, p) && HeardAt(mag, candidates, d, q, a);
      EarlierTrans(d, q, c, p, c', p');
    }
    forall a | HeardTwice(mag, candidates, c, p, a) ensures HeardTwice(mag, candidates, c', p', a) {
      var d, q :| Earlier(d, q, c, p) && HeardAt(mag, candidates, d, q, a) && Heard(mag, candidates, d, q, a);
      EarlierTrans(d, q, c, p, c', p');
    }
  }

  /** One phase adds an address only with a source. */
  lemma NotedSourced(mag: seq<int>, candidates: seq<nat>, c: nat, p: nat, b: Book, found: seq<Found>, h: Book)
    requires c < |candidates| && candidates[c] + 290 < |mag| && Plausible(mag, candidates[c]) && 4 <= p <= 8
    requires Sourced(mag, candidates, c, p, b, found, h)
    ensures Sourced(mag, candidates, c, p + 1, b, found, Noted(h, MessageAt(mag, candidates[c], p)))
  {
    hide MessageAt, AllCall, Squitter, Sender, Plausible, Earned, Noticed;
    var msg := MessageAt(mag, candidates[c], p);
    StillSourced(mag, candidates, c, p, c, p + 1, b, found, found, h);
    if AllCall(msg) {
      HeardNow(mag, candidates, c, p, b, found, Sender(msg));
    }
  }

  lemma HeardNow(mag: seq<int>, candidates: seq<nat>, c: nat, p: nat, b: Book, found: seq<Found>, a: Address)
    requires HeardAt(mag, candidates, c, p, a)
    ensures Noticed(mag, candidates, c, p + 1, b, a)
    ensures Noticed(mag, candidates, c, p, b, a) ==> Earned(mag, candidates, c, p + 1, b, found, a)
  {
    hide HeardAt;
    assert Earlier(c, p, c, p + 1);
  }

  lemma {:induction false} HeldSourced(mag: seq<int>, candidates: seq<nat>, c: nat, p: nat, b: Book,
                                       found: seq<Found>, h: Book)
    requires c < |candidates| && candidates[c] + 290 < |mag| && Plausible(mag, candidates[c]) && 4 <= p <= 9
    requires Sourced(mag, candidates, c, 4, b, found, h)
    ensures Sourced(mag, candidates, c, p, b, found, HeldAt(mag, candidates[c], p, h))
  {
    hide Sourced, Plausible, MessageAt, Noted;
    if p > 4 {
      HeldSourced(mag, candidates, c, p - 1, b, found, h);
      NotedSourced(mag, candidates, c, p - 1, b, found, HeldAt(mag, candidates[c], p - 1, h));
    }
  }

  // ---------------------------------------------------------------- reports

  /** Why a message read at a phase of a candidate may be reported, after the reports before it. A
      squitter has a correct check. The sender of an all-call reply was known, or pending, or had
      been heard before. The address in the check of any other message was known. */
  ghost predicate Credible(mag: seq<int>, candidates: seq<nat>, c: nat, p: nat, b: Book,
                           before: seq<Found>, msg: seq<Byte>) {
    || Squitter(msg)
    || (AllCall(msg) && (Earned(mag, candidates, c, p, b, before, Sender(msg))
                         || Noticed(mag, candidates, c, p, b, Sender(msg))))
    || (Overlaid(msg) && Earned(mag, candidates, c, p, b, before, CrcOf(msg)))
  }

  /** Some phase of a candidate reads a squitter with a correct check. */
  predicate HoldsSquitter(mag: seq<int>, j: nat)
    requires j + 290 < |mag|
  {
    exists p :: 4 <= p <= 8 && Squitter(MessageAt(mag, j, p))
  }

  /** A report was read at a plausible preamble, is credible, and is a squitter wherever a squitter can
      be read. */
  ghost predicate Justified(mag: seq<int>, candidates: seq<nat>, b: Book, before: seq<Found>, f: Found) {
    exists c, p :: ReadFrom(mag, candidates, c, p, f) && Credible(mag, candidates, c, p, b, before, f.msg)
      && (HoldsSquitter(mag, f.offset) ==> Squitter(f.msg))
  }

  ghost predicate ReadFrom(mag: seq<int>, candidates: seq<nat>, c: nat, p: nat, f: Found) {
    && c < |candidates| && candidates[c] == f.offset && f.offset + 290 < |mag| && 4 <= p <= 8
    && Plausible(mag, f.offset) && f.msg == MessageAt(mag, f.offset, p)
  }

  /** Every report is justified by what came before it, and none starts before the one before it has
      ended. */
  ghost predicate Report(mag: seq<int>, candidates: seq<nat>, b: Book, found: seq<Found>) {
    && (forall i :: 0 <= i < |found| ==> Justified(mag, candidates, b, found[..i], found[i]))
    && (forall i, k :: 0 <= i < k < |found| ==> found[i].offset + Span(found[i].msg) <= found[k].offset)
  }

  ghost predicate Spaced(s: Scan) {
    forall f :: f in s.found ==> f.offset + Span(f.msg) <= s.skip
  }

  lemma OneMoreReport(mag: seq<int>, candidates: seq<nat>, b: Book, found: seq<Found>, f: Found, skip: nat)
    requires Report(mag, candidates, b, found) && Justified(mag, candidates, b, found, f)
    requires skip <= f.offset && forall g :: g in found ==> g.offset + Span(g.msg) <= skip
    ensures Report(mag, candidates, b, found + [f])
  {
    hide Justified;
    var more := found + [f];
    forall i | 0 <= i < |more| ensures Justified(mag, candidates, b, more[..i], more[i]) {
      if i < |found| {
        assert more[..i] == found[..i];
      } else {
        assert more[..i] == found;
      }
    }
    forall i, k | 0 <= i < k < |more| ensures more[i].offset + Span(more[i].msg) <= more[k].offset {
      assert more[i] in found;
    }
  }

  /** The message chosen is credible. */
  lemma ChosenCredible(mag: seq<int>, candidates: seq<nat>, c: nat, b: Book, s: Scan)
    requires c < |candidates| && candidates[c] + 290 < |mag| && Plausible(mag, candidates[c])
    requires Sourced(mag, candidates, c, 4, b, s.found, s.book) && Chosen(mag, candidates[c], s.book) != -1
    ensures var j := candidates[c];
      var p := Chosen(mag, j, s.book);
      Credible(mag, candidates, c, p, b, s.found, MessageAt(mag, j, p))
      && (HoldsSquitter(mag, j) ==> Squitter(MessageAt(mag, j, p)))
  {
    hide MessageAt, AllCall, Squitter, Overlaid, Sender, CrcOf, Plausible, Earned, Noticed, HeldAt, Rank, ChosenBelow;
    var j := candidates[c];
    var p := Chosen(mag, j, s.book);
    ChosenIsBest(mag, j, 9, s.book);
    var h := HeldAt(mag, j, p, s.book);
    HeldSourced(mag, candidates, c, p, b, s.found, s.book);
    RankMeans(MessageAt(mag, j, p), h);
    if q :| 4 <= q <= 8 && Squitter(MessageAt(mag, j, q)) {
      RankMeans(MessageAt(mag, j, q), HeldAt(mag, j, q, s.book));
      assert ScoreAt(mag, j, q, s.book) <= ScoreAt(mag, j, p, s.book);
    }
  }

  /** What acceptance adds has a source: the squitter reported, or the reply heard now. */
  lemma AcceptedSourced(mag: seq<int>, candidates: seq<nat>, c: nat, b: Book, s: Scan)
    requires c < |candidates| && candidates[c] + 290 < |mag| && Plausible(mag, candidates[c])
    requires Sourced(mag, candidates, c, 4, b, s.found, s.book) && Chosen(mag, candidates[c], s.book) != -1
    ensures var j := candidates[c];
      var msg := MessageAt(mag, j, Chosen(mag, j, s.book));
      Sourced(mag, candidates, c + 1, 4, b, s.found + [Found(j, msg)], Accepted(HeldAt(mag, j, 9, s.book), msg))
  {
    hide MessageAt, AllCall, Squitter, Overlaid, Sender, CrcOf, Plausible, Earned, Noticed, HeldAt, ChosenBelow,
         HeardAt;
    var j := candidates[c];
    var p := Chosen(mag, j, s.book);
    var msg := MessageAt(mag, j, p);
    var found' := s.found + [Found(j, msg)];
    HeldSourced(mag, candidates, c, 9, b, s.found, s.book);
    StillSourced(mag, candidates, c, 9, c + 1, 4, b, s.found, found', HeldAt(mag, j, 9, s.book));
    ChosenCredible(mag, candidates, c, b, s);
    if Names(msg) {
      NamesMeans(msg);
      SenderEarned(mag, candidates, c, p, b, s.found, found', msg);
    }
  }

  lemma NamesMeans(msg: seq<Byte>)
    requires Names(msg)
    ensures !Overlaid(msg)
  {
    hide CrcOf, DownlinkFormat;
  }

  lemma SenderEarned(mag: seq<int>, candidates: seq<nat>, c: nat, p: nat, b: Book,
                     found: seq<Found>, found': seq<Found>, msg: seq<Byte>)
    requires c < |candidates| && candidates[c] + 290 < |mag| && Plausible(mag, candidates[c]) && 4 <= p <= 8
    requires msg == MessageAt(mag, candidates[c], p) && found' == found + [Found(candidates[c], msg)]
    requires Credible(mag, candidates, c, p, b, found, msg) && !Overlaid(msg)
    ensures Earned(mag, candidates, c + 1, 4, b, found', Sender(msg))
  {
    hide MessageAt, AllCall, Squitter, Overlaid, Sender, CrcOf, Plausible, HeardAt;
    var a := Sender(msg);
    if Squitter(msg) {
      assert found'[|found|] in found';
    } else {
      assert HeardAt(mag, candidates, c, p, a) by { IsHeard(mag, candidates, c, p, msg); }
      assert Earlier(c, p, c + 1, 4);
      if Earned(mag, candidates, c, p, b, found, a) {
        var h := Book([a], [], 0, 0);
        StillSourced(mag, candidates, c, p, c + 1, 4, b, found, found', h);
        assert a in h.known;
      } else {
        assert Noticed(mag, candidates, c, p, b, a);
      }
    }
  }

  lemma IsHeard(mag: seq<int>, candidates: seq<nat>, c: nat, p: nat, msg: seq<Byte>)
    requires c < |candidates| && candidates[c] + 290 < |mag| && Plausible(mag, candidates[c]) && 4 <= p <= 8
    requires msg == MessageAt(mag, candidates[c], p) && AllCall(msg)
    ensures HeardAt(mag, candidates, c, p, Sender(msg))
  {
    hide MessageAt, AllCall, Sender, Plausible;
  }

  lemma NothingYet(mag: seq<int>, candidates: seq<nat>, b: Book)
    ensures Report(mag, candidates, b, []) && Sourced(mag, candidates, 0, 4, b, [], b)
  {
  }

  /** Soundness, over whole buffers: after any number of candidates every report is justified, none
      overlaps another, and every address held has a source. */
  lemma {:induction false} ScanSound(mag: seq<int>, candidates: seq<nat>, n: nat, b: Book)
    requires InRange(mag, candidates) && n <= |candidates|
    ensures var s := Scanned(mag, candidates, n, b);
      && Report(mag, candidates, b, s.found) && Spaced(s) && |s.found| <= MAX_MESSAGES
      && Sourced(mag, candidates, n, 4, b, s.found, s.book)
  {
    hide Report, Sourced, Plausible, MessageAt, HeldAt, Accepted, Squitter, Credible, HoldsSquitter;
    if n == 0 {
      NothingYet(mag, candidates, b);
    } else {
      ScanSound(mag, candidates, n - 1, b);
      var c := n - 1;
      var s, j := Scanned(mag, candidates, c, b), candidates[c];
      StillSourced(mag, candidates, c, 4, n, 4, b, s.found, s.found, s.book);
      if j >= s.skip && Plausible(mag, j) {
        HeldSourced(mag, candidates, c, 9, b, s.found, s.book);
        StillSourced(mag, candidates, c, 9, n, 4, b, s.found, s.found, HeldAt(mag, j, 9, s.book));
        var p := Chosen(mag, j, s.book);
        if p != -1 && |s.found| < MAX_MESSAGES {
          ChosenCredible(mag, candidates, c, b, s);
          AcceptedSourced(mag, candidates, c, b, s);
          var f := Found(j, MessageAt(mag, j, p));
          assert ReadFrom(mag, candidates, c, p, f);
          OneMoreReport(mag, candidates, b, s.found, f, s.skip);
        }
      }
    }
  }

  // ---------------------------------------------------------------- completeness

  ghost predicate Covered(found: seq<Found>, j: nat) {
    exists f :: f in found && f.offset <= j < f.offset + Span(f.msg)
  }

  /** A report before j names an address as its sender. */
  ghost predicate NamedBefore(found: seq<Found>, j: nat, a: Address) {
    exists f :: f in found && f.offset < j && Names(f.msg) && Sender(f.msg) == a
  }

  /** An address certain to be known at j: given as known, or named by a report before j while there
      was still room. */
  ghost predicate Certain(b: Book, found: seq<Found>, room: bool, j: nat, a: Address) {
    a in b.known || (room && NamedBefore(found, j, a))
  }

  /** A message certain to be accepted at j. */
  ghost predicate Assured(b: Book, found: seq<Found>, room: bool, j: nat, msg: seq<Byte>) {
    || Squitter(msg)
    || (AllCall(msg) && Certain(b, found, room, j, Sender(msg)))
    || (Overlaid(msg) && Certain(b, found, room, j, CrcOf(msg)))
  }

  /** Some phase of a candidate reads a message that is certain to be accepted. */
  ghost predicate HoldsAssured(mag: seq<int>, j: nat, b: Book, found: seq<Found>, room: bool)
    requires j + 290 < |mag|
  {
    exists p :: 4 <= p <= 8 && Assured(b, found, room, j, MessageAt(mag, j, p))
  }

  /** None of the first n candidates is missed, unless it lies inside a message that is reported or the
      report is full. */
  ghost predicate Complete(mag: seq<int>, candidates: seq<nat>, n: nat, b: Book, s: Scan)
    requires InRange(mag, candidates) && n <= |candidates|
  {
    |s.found| < 8000 ==>
      forall c :: 0 <= c < n ==> !Missed(mag, candidates[c], b, s)
  }

  ghost predicate Missed(mag: seq<int>, j: nat, b: Book, s: Scan) {
    && j + 290 < |mag| && Plausible(mag, j) && !Covered(s.found, j)
    && HoldsAssured(mag, j, b, s.found, |s.book.known| < s.book.maxKnown)
  }

  /** What makes it work: given addresses stay known, and as long as there is room so is every address
      a report has named. */
  ghost predicate Remembered(b: Book, s: Scan) {
    && Contains(b, s.book)
    && (|s.book.known| < s.book.maxKnown ==>
          forall f :: f in s.found && Names(f.msg) ==> Sender(f.msg) in s.book.known)
  }

  lemma ContainsTrans(b: Book, c: Book, d: Book)
    requires Contains(b, c) && Contains(c, d)
    ensures Contains(b, d)
  {
  }

  lemma AcceptedNames(h: Book, msg: seq<Byte>)
    ensures var h' := Accepted(h, msg);
      Names(msg) && |h'.known| < h'.maxKnown ==> Sender(msg) in h'.known
  {
    hide Names, Sender;
  }

  lemma RememberedStep(mag: seq<int>, j: nat, b: Book, s: Scan)
    requires j + 290 < |mag| && Remembered(b, s)
    ensures Remembered(b, Tried(mag, s, j)) && Contains(s.book, Tried(mag, s, j).book)
  {
    hide Plausible, MessageAt, HeldAt, Accepted, Names, Sender, ChosenBelow;
    var h := HeldAt(mag, j, 9, s.book);
    HeldGrows(mag, j, 4, 9, s.book);
    assert HeldAt(mag, j, 4, s.book) == s.book by { HeldFirst(mag, j, s.book); }
    ContainsTrans(b, s.book, h);
    var p := Chosen(mag, j, s.book);
    if p != -1 {
      var msg := MessageAt(mag, j, p);
      NotedGrows(h, msg);
      ContainsTrans(b, h, Accepted(h, msg));
      ContainsTrans(s.book, h, Accepted(h, msg));
      AcceptedNames(h, msg);
    }
  }

  lemma HeldFirst(mag: seq<int>, j: nat, b: Book)
    requires j + 290 < |mag|
    ensures HeldAt(mag, j, 4, b) == b
  {
  }

  /** A candidate with a message certain to be accepted is reported, when its turn comes. */
  lemma AssuredIsChosen(mag: seq<int>, j: nat, b: Book, s: Scan)
    requires j + 290 < |mag| && Remembered(b, s)
    requires HoldsAssured(mag, j, b, s.found, |s.book.known| < s.book.maxKnown)
    ensures Chosen(mag, j, s.book) != -1
  {
    hide Plausible, MessageAt, HeldAt, Names, Sender, ChosenBelow, Squitter, AllCall, Overlaid, CrcOf;
    var p :| 4 <= p <= 8 && Assured(b, s.found, |s.book.known| < s.book.maxKnown, j, MessageAt(mag, j, p));
    HeldGrows(mag, j, 4, p, s.book);
    HeldFirst(mag, j, s.book);
    ChosenIsBest(mag, j, 9, s.book);
    AssuredRanks(MessageAt(mag, j, p), s.book);
    RankGrows(MessageAt(mag, j, p), s.book, HeldAt(mag, j, p, s.book));
    assert ScoreAt(mag, j, p, s.book) > 0;
  }

  lemma AssuredRanks(msg: seq<Byte>, h: Book)
    requires Squitter(msg) || (AllCall(msg) && Sender(msg) in h.known) || (Overlaid(msg) && CrcOf(msg) in h.known)
    ensures Rank(msg, h) > 0
  {
    hide Sender, Squitter, AllCall, Overlaid, CrcOf;
    Apart(msg);
  }

  ghost predicate Blocked(candidates: seq<nat>, n: nat, s: Scan) {
    && s.found != [] && s.skip == s.found[|s.found| - 1].offset + Span(s.found[|s.found| - 1].msg)
    && exists c :: 0 <= c < n <= |candidates| && candidates[c] == s.found[|s.found| - 1].offset
  }

  lemma CoveredStays(found: seq<Found>, found': seq<Found>, j: nat)
    requires Covered(found, j) && found <= found'
    ensures Covered(found', j)
  {
    var f :| f in found && f.offset <= j < f.offset + Span(f.msg);
    assert f in found';
  }

  /** What is certain at j later on was so before, if the reports since are not before j. */
  lemma AssuredBefore(mag: seq<int>, j: nat, b: Book, s: Scan, s': Scan)
    requires j + 290 < |mag| && s.found <= s'.found && Contains(s.book, s'.book)
    requires forall i :: |s.found| <= i < |s'.found| ==> s'.found[i].offset >= j
    requires HoldsAssured(mag, j, b, s'.found, |s'.book.known| < s'.book.maxKnown)
    ensures HoldsAssured(mag, j, b, s.found, |s.book.known| < s.book.maxKnown)
  {
    hide MessageAt, Squitter, AllCall, Overlaid, Sender, CrcOf, Names;
    var room, room' := |s.book.known| < s.book.maxKnown, |s'.book.known| < s'.book.maxKnown;
    var p :| 4 <= p <= 8 && Assured(b, s'.found, room', j, MessageAt(mag, j, p));
    forall a | NamedBefore(s'.found, j, a) ensures NamedBefore(s.found, j, a) {
      var f :| f in s'.found && f.offset < j && Names(f.msg) && Sender(f.msg) == a;
      var i :| 0 <= i < |s'.found| && s'.found[i] == f;
      assert s.found[i] == f;
    }
    assert Assured(b, s.found, room, j, MessageAt(mag, j, p));
  }

  /** A later state misses no candidate that an earlier one did not. */
  lemma StillNotMissed(mag: seq<int>, j: nat, b: Book, s: Scan, s': Scan)
    requires !Missed(mag, j, b, s) && s.found <= s'.found && Contains(s.book, s'.book)
    requires forall i :: |s.found| <= i < |s'.found| ==> s'.found[i].offset >= j
    ensures !Missed(mag, j, b, s')
  {
    hide Plausible, Covered, HoldsAssured;
    if Covered(s.found, j) {
      CoveredStays(s.found, s'.found, j);
    } else if j + 290 < |mag| && HoldsAssured(mag, j, b, s'.found, |s'.book.known| < s'.book.maxKnown) {
      AssuredBefore(mag, j, b, s, s');
    }
  }

  /** Completeness, over whole buffers: of candidates in order none is missed that reads a squitter, or
      a message ranked by an address given as known or, while there is room for addresses, named by
      an earlier report. */
  lemma {:induction false} ScanComplete(mag: seq<int>, candidates: seq<nat>, n: nat, b: Book)
    requires InRange(mag, candidates) && n <= |candidates| && Ascending(candidates)
    ensures var s := Scanned(mag, candidates, n, b);
      && Complete(mag, candidates, n, b, s) && Remembered(b, s)
      && (s.skip > 0 ==> Blocked(candidates, n, s))
  {
    hide Missed, Remembered, Tried, Blocked;
    if n == 0 {
      assert Remembered(b, Scan(b, [], 0)) by { NothingNamed(b); }
    } else {
      ScanComplete(mag, candidates, n - 1, b);
      CompleteStep(mag, candidates, n - 1, b, Scanned(mag, candidates, n - 1, b), Scanned(mag, candidates, n, b));
    }
  }

  lemma CompleteStep(mag: seq<int>, candidates: seq<nat>, c: nat, b: Book, s: Scan, s': Scan)
    requires InRange(mag, candidates) && c < |candidates| && Ascending(candidates) && s' == Tried(mag, s, candidates[c])
    requires Complete(mag, candidates, c, b, s) && Remembered(b, s) && (s.skip > 0 ==> Blocked(candidates, c, s))
    ensures Complete(mag, candidates, c + 1, b, s') && Remembered(b, s')
    ensures s'.skip > 0 ==> Blocked(candidates, c + 1, s')
  {
    hide Missed, Remembered, Tried;
    var j := candidates[c];
    RememberedStep(mag, j, b, s);
    TriedFinds(mag, s, j);
    forall d | 0 <= d < c && !Missed(mag, candidates[d], b, s) ensures !Missed(mag, candidates[d], b, s') {
      StillNotMissed(mag, candidates[d], b, s, s');
    }
    NotMissedNow(mag, candidates, c, b, s, s');
  }

  /** A candidate adds at most one report, at its own place. */
  lemma TriedFinds(mag: seq<int>, s: Scan, j: nat)
    requires j + 290 < |mag|
    ensures var s' := Tried(mag, s, j);
      && (s'.found == s.found ==> s'.skip == s.skip)
      && (s'.found != s.found ==> exists msg :: s'.found == s.found + [Found(j, msg)] && s'.skip == j + Span(msg))
  {
    hide Plausible, MessageAt, HeldAt, Accepted, ChosenBelow;
  }

  lemma NothingNamed(b: Book)
    ensures Remembered(b, Scan(b, [], 0))
  {
  }

  lemma NotMissedNow(mag: seq<int>, candidates: seq<nat>, c: nat, b: Book, s: Scan, s': Scan)
    requires InRange(mag, candidates) && c < |candidates| && Ascending(candidates)
    requires Remembered(b, s) && s' == Tried(mag, s, candidates[c]) && (s.skip > 0 ==> Blocked(candidates, c, s))
    ensures |s'.found| < MAX_MESSAGES ==> !Missed(mag, candidates[c], b, s')
  {
    hide Remembered, Plausible, MessageAt, HeldAt, Accepted, HoldsAssured, ChosenBelow;
    var j := candidates[c];
    if j < s.skip {
      var f := s.found[|s.found| - 1];
      assert f in s'.found;
      assert Covered(s'.found, j);
    } else if Plausible(mag, j) && |s.found| < MAX_MESSAGES {
      var p := Chosen(mag, j, s.book);
      if p != -1 {
        var f := s'.found[|s'.found| - 1];
        assert f in s'.found && f.offset == j;
        assert Covered(s'.found, j);
      } else if HoldsAssured(mag, j, b, s'.found, |s'.book.known| < s'.book.maxKnown) {
        RememberedStep(mag, j, b, s);
        AssuredBefore(mag, j, b, s, s');
        AssuredIsChosen(mag, j, b, s);
      }
    }
  }

  // ---------------------------------------------------------------- a buffer

  /** Detection over a whole buffer of magnitudes: sound and complete. */
  method DetectBuffer(mag: seq<int>, table: seq<Rem>, known: seq<Address>, pending: seq<Address>)
    returns (found: seq<Found>, b': Book)
    requires |table| == 256 && forall b: Byte :: table[ByteValue(b)] == Entry(b)
    ensures InRange(mag, Places(mag)) && Ascending(Places(mag))
    ensures var candidates, b := Places(mag), Opened(known, pending);
      var s := Scanned(mag, candidates, |candidates|, b);
      && found == s.found && b' == s.book
      && Report(mag, candidates, b, found) && Sourced(mag, candidates, |candidates|, 4, b, found, b')
      && Complete(mag, candidates, |candidates|, b, s)
  {
    hide Tried, Report, Sourced, Complete, Remembered, Blocked, Places;
    var candidates := FindPreambleCandidates(mag);
    forall c | 0 <= c < |candidates| ensures candidates[c] + 290 < |mag| {
      var j := candidates[c];
      assert j in candidates;
    }
    b' := Opened(known, pending);
    ScanSound(mag, candidates, |candidates|, b');
    ScanComplete(mag, candidates, |candidates|, b');
    if candidates == [] {
      return [], b';
    }
    found, b' := DetectAndDecode(mag, candidates, table, b');
  }
}
