/** RDS words as they go on the air: multiples of the generator polynomial, each with the offset of its
    place added, and the data the receiver hands over for them. */
module RdsWire {
  import opened Words
  import opened RdsSyndrome
  import opened RdsBlock
  import opened RdsSync
  import opened RdsRuns
  import opened RdsDelivery

  // ---------------------------------------------------------------- multiples of the generator

  /** The terms of x^10 + x^8 + x^7 + x^5 + x^4 + x^3 + 1. */
  predicate Term(k: int) {
    k == 0 || k == 3 || k == 4 || k == 5 || k == 7 || k == 8 || k == 10
  }

  /** The generator times x^s. */
  function Shifted(s: nat): Block {
    seq(26, k => Term(k - s))
  }

  function Blank(): Block {
    seq(26, _ => false)
  }

  /** The generator times the first n bits of q, as a polynomial. */
  function Multiple(q: Bits, n: nat): Block
    requires n <= |q|
  {
    if n == 0 then Blank() else Xor(Multiple(q, n - 1), if q[n - 1] then Shifted(n - 1) else Blank())
  }

  lemma GeneratorIs(k: nat)
    requires k < 10
    ensures CRC_POLY[k] <==> Term(k)
  {
    hide CRC_POLY;
    PolyBits();
  }

  lemma BlankSyndrome()
    ensures Syndrome(Blank()) == NO_ERROR
  {
    hide SyndromeDown;
    CheckBits(Blank(), 0);
  }

  /** The register while the generator goes through: bits not yet shifted in come from below. */
  lemma {:induction false} ShiftedDown(s: nat, i: nat)
    requires s < 16 && i <= 26
    ensures forall k :: 0 <= k < 10 ==> SyndromeDown(Shifted(s), i)[k] == (i > s && Term(i - s + k))
    decreases 26 - i
  {
    hide ShiftIn, CRC_POLY;
    if i < 26 {
      ShiftedDown(s, i + 1);
      var reg := SyndromeDown(Shifted(s), i + 1);
      forall k | 0 <= k < 10 ensures ShiftIn(reg, Shifted(s)[i])[k] == (i > s && Term(i - s + k)) {
        ShiftInBit(reg, Shifted(s)[i], k);
        GeneratorIs(k);
        assert Shifted(s)[i] == Term(i - s);
        assert reg[9] == (i + 1 > s && Term(i + 10 - s));
        assert k > 0 ==> reg[k - 1] == (i + 1 > s && Term(i + 1 - s + (k - 1)));
      }
    }
  }

  lemma ShiftedSyndrome(s: nat)
    requires s < 16
    ensures Syndrome(Shifted(s)) == NO_ERROR
  {
    hide SyndromeDown;
    ShiftedDown(s, 0);
  }

  lemma {:induction false} MultipleSyndrome(q: Bits, n: nat)
    requires n <= |q| && n <= 16
    ensures Syndrome(Multiple(q, n)) == NO_ERROR
  {
    hide Syndrome, Shifted, Blank;
    BlankSyndrome();
    if n > 0 {
      MultipleSyndrome(q, n - 1);
      ShiftedSyndrome(n - 1);
      SyndromeXor(Multiple(q, n - 1), if q[n - 1] then Shifted(n - 1) else Blank());
      assert Xor(NO_ERROR, NO_ERROR) == NO_ERROR;
    }
  }

  lemma {:induction false} SameMultiple(p: Bits, q: Bits, n: nat)
    requires n <= |p| && n <= |q| && p[..n] == q[..n]
    ensures Multiple(p, n) == Multiple(q, n)
  {
    if n > 0 {
      assert p[..n - 1] == p[..n][..n - 1] && q[..n - 1] == q[..n][..n - 1];
      assert p[n - 1] == p[..n][n - 1] && q[n - 1] == q[..n][n - 1];
      SameMultiple(p, q, n - 1);
    }
  }

  /** Long division: a word below x^(n + 10) without remainder is a multiple by n bits. */
  lemma {:induction false} Quotient(w: Block, n: nat) returns (q: Bits)
    requires n <= 16 && Syndrome(w) == NO_ERROR && forall k :: n + 10 <= k < 26 ==> !w[k]
    ensures |q| == n && Multiple(q, n) == w
    decreases n
  {
    hide Syndrome, Multiple;
    if n == 0 {
      q := [];
      NothingLeft(w);
      NoMultiple(q);
    } else {
      var top := if w[n + 9] then Shifted(n - 1) else Blank();
      ShiftedSyndrome(n - 1);
      BlankSyndrome();
      SyndromeXor(w, top);
      assert Xor(NO_ERROR, NO_ERROR) == NO_ERROR;
      TopCleared(w, top, n);
      var rest := Quotient(Xor(w, top), n - 1);
      q := rest + [w[n + 9]];
      assert q[..n - 1] == rest;
      SameMultiple(q, rest, n - 1);
      OneMoreTerm(q, n);
      XorSelf(w, top);
    }
  }

  lemma NoMultiple(q: Bits)
    ensures Multiple(q, 0) == Blank()
  {
  }

  lemma OneMoreTerm(q: Bits, n: nat)
    requires 1 <= n <= |q|
    ensures Multiple(q, n) == Xor(Multiple(q, n - 1), if q[n - 1] then Shifted(n - 1) else Blank())
  {
  }

  lemma TopCleared(w: Block, top: Block, n: nat)
    requires 1 <= n <= 16 && (forall k :: n + 10 <= k < 26 ==> !w[k])
    requires top == if w[n + 9] then Shifted(n - 1) else Blank()
    ensures forall k :: n + 9 <= k < 26 ==> !Xor(w, top)[k]
  {
    forall k | n + 9 <= k < 26 ensures !Xor(w, top)[k] {
      assert Shifted(n - 1)[k] == Term(k - (n - 1)) && !Blank()[k];
      assert k > n + 9 ==> !w[k];
    }
  }

  lemma NothingLeft(w: Block)
    requires Syndrome(w) == NO_ERROR && forall k :: 10 <= k < 26 ==> !w[k]
    ensures w == Blank()
  {
    hide SyndromeDown;
    CheckBits(w, 0);
    forall k | 0 <= k < 26 ensures w[k] == Blank()[k] {
      if k < 10 {
        assert SyndromeDown(w, 0)[k] == w[k] && !NO_ERROR[k];
      }
    }
  }

  // ---------------------------------------------------------------- words on the air

  /** The offset words A, B, C and D of the four places. */
  predicate OffsetBit(position: nat, k: nat) {
    match position
    case 0 => 2 <= k <= 7
    case 1 => k == 3 || k == 4 || k == 7 || k == 8
    case 2 => k == 3 || k == 5 || k == 6 || k == 8
    case _ => k == 2 || k == 4 || k == 5 || k == 7 || k == 8
  }

  function OffsetWord(position: nat): Block {
    seq(26, k requires 0 <= k => k < 10 && OffsetBit(position, k))
  }

  /** A word for a place of the group: a multiple of the generator with the offset of the place added. */
  ghost predicate ForPlace(w: Block, position: nat) {
    exists q: Bits :: |q| == 16 && w == Xor(Multiple(q, 16), OffsetWord(position))
  }

  lemma OffsetIs(position: nat)
    requires position < 4
    ensures Syndrome(OffsetWord(position)) == Offsets(position)[0]
  {
    hide SyndromeDown, OffsetA, OffsetB, OffsetC, OffsetD;
    CheckBits(OffsetWord(position), 0);
    OffsetBits(position);
  }

  lemma OffsetBits(position: nat)
    requires position < 4
    ensures Offsets(position)[0] == seq(10, k requires 0 <= k => OffsetBit(position, k))
  {
    if position < 2 {
      OffsetBitsAB(position);
    } else {
      OffsetBitsCD(position);
    }
  }

  lemma OffsetBitsAB(position: nat)
    requires position < 2
    ensures Offsets(position)[0] == seq(10, k requires 0 <= k => OffsetBit(position, k))
  {
    hide Unpack;
    match position
    case 0 => TenBits(0x0, 0xF, 0xC);
    case _ => TenBits(0x1, 0x9, 0x8);
  }

  lemma OffsetBitsCD(position: nat)
    requires 2 <= position < 4
    ensures Offsets(position)[0] == seq(10, k requires 0 <= k => OffsetBit(position, k))
  {
    hide Unpack;
    match position
    case 2 => TenBits(0x1, 0x6, 0x8);
    case _ => TenBits(0x1, 0xB, 0x4);
  }

  /** The offset word C', the one other word taken at the third place. */
  lemma AlternateOffsetIs()
    ensures |Offsets(2)| == 2 && Offsets(2)[1] == seq(10, k => k == 4 || k == 6 || k == 8 || k == 9)
  {
    hide Unpack;
    TenBits(0x3, 0x5, 0x0);
  }

  lemma TenBits(a: nat, b: nat, c: nat)
    requires a < 4 && b < 16 && c < 16
    ensures Unpack(256 * a + 16 * b + c, 10) == Nibble(c) + (Nibble(b) + [a % 2 == 1, a / 2 == 1])
  {
    hide Unpack, Nibble;
    TwoBits(0, a, 0);
    NoBits();
    FourBits(a, b, 2);
    FourBits(16 * a + b, c, 6);
    assert 16 * (16 * a + b) + c == 256 * a + 16 * b + c;
  }

  lemma NoBits()
    ensures forall w: Bits :: w + Unpack(0, 0) == w
  {
  }

  /** The words a receiver takes for undamaged at a place are exactly those. */
  lemma ForPlaceExactly(w: Block, position: nat)
    requires position < 4
    ensures ForPlace(w, position) <==> Syndrome(w) == Offsets(position)[0]
  {
    hide Syndrome, Multiple, OffsetWord, OffsetA, OffsetB, OffsetC, OffsetD, Xor;
    if ForPlace(w, position) {
      var q: Bits :| |q| == 16 && w == Xor(Multiple(q, 16), OffsetWord(position));
      OffsetOnMultiple(q, position);
    }
    if Syndrome(w) == Offsets(position)[0] {
      var q := MultipleUnder(w, position);
    }
  }

  lemma OffsetOnMultiple(q: Bits, position: nat)
    requires |q| == 16 && position < 4
    ensures Syndrome(Xor(Multiple(q, 16), OffsetWord(position))) == Offsets(position)[0]
  {
    hide Syndrome, Multiple, OffsetWord, Offsets;
    OffsetIs(position);
    MultipleSyndrome(q, 16);
    SyndromeXor(Multiple(q, 16), OffsetWord(position));
    NothingAdded(Syndrome(OffsetWord(position)));
  }

  lemma MultipleUnder(w: Block, position: nat) returns (q: Bits)
    requires position < 4 && Syndrome(w) == Offsets(position)[0]
    ensures |q| == 16 && w == Xor(Multiple(q, 16), OffsetWord(position))
  {
    hide Syndrome, Multiple, OffsetWord, Offsets, Xor;
    OffsetIs(position);
    SyndromeXor(w, OffsetWord(position));
    NothingAdded(Syndrome(w));
    XorSelf(w, OffsetWord(position));
    q := Quotient(Xor(w, OffsetWord(position)), 16);
  }

  lemma NothingAdded(s: Syn)
    ensures Xor(NO_ERROR, s) == s && Xor(s, s) == NO_ERROR
  {
  }

  /** Four words, most significant bit first, with errors. */
  function Air(c: seq<Block>, e: seq<Block>): (bits: Bits)
    requires |c| == |e| == 4
    ensures |bits| == 104
  {
    seq(104, t requires 0 <= t < 104 => c[t / 26][25 - t % 26] != e[t / 26][25 - t % 26])
  }

  /** Words for the four places, each with repairable damage. */
  ghost predicate OnTheAir(c: seq<Block>, e: seq<Block>, twoBitData: bool)
    requires |c| == |e| == 4
  {
    forall i :: 0 <= i < 4 ==> ForPlace(c[i], i) && Repairable(e[i], twoBitData)
  }

  /** One group call, with the upper sixteen bits of the words as data, all valid. */
  predicate OneCall(calls: seq<Call>, c: seq<Block>)
    requires |c| == 4
  {
    && |calls| == 1 && |calls[0].blocks| == |calls[0].valid| == 4
    && forall i :: 0 <= i < 4 ==>
         calls[0].valid[i] && forall k :: 0 <= k < 16 ==> calls[0].blocks[i][k] == c[i][10 + k]
  }

  /** From the air to the group call: after any run, a receiver at the start of a group that hears the
      words of the four places, most significant bit first and each with repairable damage, makes one
      group call with their data. */
  lemma GroupOnAir(events: seq<Event>, c: seq<Block>, e: seq<Block>)
    requires |c| == |e| == 4
    requires AtGroupStart(StateAfter(events)) && OnTheAir(c, e, StateAfter(events).station.pi.Some?)
    ensures OneCall(Received(Built(), StateAfter(events), Air(c, e)).1, c)
  {
    hide StateAfter, Received, Built, AtGroupStart, ForPlace, Repairable, Syndrome, OffsetA, OffsetB, OffsetC, OffsetD;
    forall i | 0 <= i < 4 ensures Syndrome(c[i]) == Offsets(i)[0] {
      ForPlaceExactly(c[i], i);
    }
    GroupDelivered(events, c, e);
    OnAir(c, e);
  }

  lemma OnAir(c: seq<Block>, e: seq<Block>)
    requires |c| == |e| == 4
    ensures Air(c, e) == GroupBits(c, e)
  {
    hide Xor;
  }
}
