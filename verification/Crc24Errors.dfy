/** Which errors the Mode S parity check finds beyond bursts: every odd number of wrong bits, and in
    messages as long as the receiver takes any three. */
module Crc24Errors {
  import opened Words
  import opened ShiftRegister
  import opened Crc24

  // ---------------------------------------------------------------- the polynomial

  /** Below x^24 the terms of G are 1, x^3, x^10 and x^12 to x^23. */
  predicate Term(k: nat) {
    k == 0 || k == 3 || k == 10 || 12 <= k <= 23
  }

  lemma PolynomialIs(k: nat)
    requires k < 24
    ensures POLY[k] <==> Term(k)
  {
    hide Unpack;
    FourBits(0xFFF40, 0x9, 20);
    FourBits(0xFFF4, 0x0, 16);
    FourBits(0xFFF, 0x4, 12);
    FourBits(0xFF, 0xF, 8);
    FourBits(0xF, 0xF, 4);
    FourBits(0x0, 0xF, 0);
  }

  // ---------------------------------------------------------------- odd numbers of wrong bits

  /** Whether the number of ones is odd. */
  predicate Odd(a: Bits) {
    Weight(a) % 2 == 1
  }

  lemma OddSum(a: Bits, b: Bits)
    requires |a| == |b|
    ensures Odd(Xor(a, b)) <==> (Odd(a) != Odd(b))
  {
    var common := XorWeight(a, b);
  }

  lemma OddCons(x: bool, a: Bits)
    ensures Odd([x] + a) <==> (x != Odd(a))
  {
    WeightCons(x, a);
  }

  lemma OddSnoc(a: Bits, x: bool)
    ensures Odd(a + [x]) <==> (Odd(a) != x)
  {
    assert (a + [x])[..|a|] == a;
  }

  lemma NothingOdd()
    ensures !Odd([])
  {
  }

  lemma OddNibble(high: nat, low: nat, n: nat)
    requires low < 16
    ensures Odd(Unpack(16 * high + low, n + 4)) <==>
      (Odd(Unpack(high, n)) != (low in {1, 2, 4, 7, 8, 11, 13, 14}))
  {
    hide Odd, Unpack;
    var a, b := Unpack(high, n), Nibble(low);
    FourBits(high, low, n);
    OddCons(b[3], a);
    OddCons(b[2], [b[3]] + a);
    OddCons(b[1], [b[2]] + ([b[3]] + a));
    OddCons(b[0], [b[1]] + ([b[2]] + ([b[3]] + a)));
    assert b + a == [b[0]] + ([b[1]] + ([b[2]] + ([b[3]] + a)));
  }

  /** G has sixteen terms, the leading one among them. */
  lemma OddTerms()
    ensures Odd(POLY)
  {
    hide Odd, Unpack;
    NothingOdd();
    assert Unpack(0, 0) == [];
    OddNibble(0x0, 0xF, 0);
    OddNibble(0xF, 0xF, 4);
    OddNibble(0xFF, 0xF, 8);
    OddNibble(0xFFF, 0x4, 12);
    OddNibble(0xFFF4, 0x0, 16);
    OddNibble(0xFFF40, 0x9, 20);
  }

  /** So a step of division keeps the number of ones in register and input even or odd. */
  lemma OddStep(reg: Rem, bit: bool)
    ensures Odd(ShiftIn(reg, bit)) <==> (Odd(reg) != bit)
  {
    hide Odd, POLY, Xor;
    var s: Rem := [bit] + reg[..23];
    OddCons(bit, reg[..23]);
    OddSnoc(reg[..23], reg[23]);
    assert reg[..23] + [reg[23]] == reg;
    OddSum(s, POLY);
    OddTerms();
  }

  lemma {:induction false} OddDivides(bits: Bits)
    ensures Odd(Divide(bits)) <==> Odd(bits)
    decreases |bits|
  {
    hide Odd, ShiftIn;
    if bits == [] {
      NothingOdd();
      WeightZero(Zero(24));
      assert !Odd(Zero(24)) by { NoneOdd(); }
    } else {
      var n := |bits| - 1;
      OddDivides(bits[..n]);
      OddStep(Divide(bits[..n]), bits[n]);
      OddSnoc(bits[..n], bits[n]);
      assert bits[..n] + [bits[n]] == bits;
    }
  }

  lemma NoneOdd()
    ensures !Odd(Zero(24))
  {
    WeightZero(Zero(24));
  }

  // ---------------------------------------------------------------- registers as numbers

  function Place(k: nat): bv24 {
    if k == 0 then 0x1 else if k == 1 then 0x2 else if k == 2 then 0x4 else if k == 3 then 0x8
    else if k == 4 then 0x10 else if k == 5 then 0x20 else if k == 6 then 0x40 else if k == 7 then 0x80
    else if k == 8 then 0x100 else if k == 9 then 0x200 else if k == 10 then 0x400 else if k == 11 then 0x800
    else if k == 12 then 0x1000 else if k == 13 then 0x2000 else if k == 14 then 0x4000 else if k == 15 then 0x8000
    else if k == 16 then 0x10000 else if k == 17 then 0x20000 else if k == 18 then 0x40000 else if k == 19 then 0x80000
    else if k == 20 then 0x100000 else if k == 21 then 0x200000 else if k == 22 then 0x400000 else 0x800000
  }

  /** A register holds a number. */
  ghost predicate Stands(reg: Rem, v: bv24) {
    forall k :: 0 <= k < 24 ==> (reg[k] <==> v & Place(k) != 0)
  }

  /** Multiplication by x. */
  function Double(v: bv24): bv24 {
    if v & 0x800000 != 0 then (v + v) ^ 0xfff409 else v + v
  }

  lemma DoublePlace(v: bv24, k: nat)
    requires k < 24
    ensures Double(v) & Place(k) != 0 <==>
      (k > 0 && v & Place(k - 1) != 0) != (v & Place(23) != 0 && Term(k))
  {
    hide Place, Term;
    Places(k);
    PlaceOfTerm(k);
    TopPlace();
    if k > 0 {
      OneUp(v, Place(k - 1));
    } else {
      NothingUp(v);
    }
    Added(v + v, 0xfff409, Place(k));
  }

  lemma Places(k: nat)
    requires k < 24
    ensures k == 0 ==> Place(k) == 1
    ensures k > 0 ==> Place(k) == Place(k - 1) + Place(k - 1) && Place(k - 1) & 0x800000 == 0
  {
  }

  lemma PlaceOfTerm(k: nat)
    requires k < 24
    ensures Place(k) & (Place(k) - 1) == 0 && (0xfff409 & Place(k) != 0 <==> Term(k))
  {
  }

  lemma TopPlace()
    ensures Place(23) == 0x800000
  {
  }

  lemma OneUp(v: bv24, p: bv24)
    requires p & 0x800000 == 0
    ensures (v + v) & (p + p) != 0 <==> v & p != 0
  {
  }

  lemma NothingUp(v: bv24)
    ensures (v + v) & 1 == 0
  {
  }

  lemma Added(v: bv24, w: bv24, p: bv24)
    requires p & (p - 1) == 0
    ensures (v ^ w) & p != 0 <==> (v & p != 0) != (w & p != 0)
  {
  }

  lemma StandsDouble(reg: Rem, v: bv24)
    requires Stands(reg, v)
    ensures Stands(ShiftIn(reg, false), Double(v))
  {
    hide ShiftIn, POLY, Double, Place, Term;
    forall k | 0 <= k < 24 ensures ShiftIn(reg, false)[k] <==> Double(v) & Place(k) != 0 {
      ShiftInBit(reg, false, k);
      PolynomialIs(k);
      DoublePlace(v, k);
    }
  }

  /** The remainder of 1. */
  function One(): Rem {
    [true] + Zero(23)
  }

  lemma OneStands(v: bv24)
    ensures Stands(One(), v) <==> v == 1
  {
    hide Stands;
    if Stands(One(), v) {
      OnlyOne(v);
    } else {
      OneIs();
    }
  }

  lemma OnlyOne(v: bv24)
    requires Stands(One(), v)
    ensures v == 1
  {
    LowPlaces(v);
    HighPlaces(v);
  }

  lemma LowPlaces(v: bv24)
    requires Stands(One(), v)
    ensures v & 0xfff == 1
  {
    assert v & Place(0) != 0;
    assert v & Place(1) == 0;
    assert v & Place(2) == 0;
    assert v & Place(3) == 0;
    assert v & Place(4) == 0;
    assert v & Place(5) == 0;
    assert v & Place(6) == 0;
    assert v & Place(7) == 0;
    assert v & Place(8) == 0;
    assert v & Place(9) == 0;
    assert v & Place(10) == 0;
    assert v & Place(11) == 0;
  }

  lemma HighPlaces(v: bv24)
    requires Stands(One(), v)
    ensures v & 0xfff000 == 0
  {
    assert v & Place(12) == 0;
    assert v & Place(13) == 0;
    assert v & Place(14) == 0;
    assert v & Place(15) == 0;
    assert v & Place(16) == 0;
    assert v & Place(17) == 0;
    assert v & Place(18) == 0;
    assert v & Place(19) == 0;
    assert v & Place(20) == 0;
    assert v & Place(21) == 0;
    assert v & Place(22) == 0;
    assert v & Place(23) == 0;
  }

  lemma OneIs()
    ensures Stands(One(), 1)
  {
    forall k | 0 <= k < 24 ensures One()[k] <==> 1 & Place(k) != 0 {
      match k
      case 0 => case 1 => case 2 => case 3 => case 4 => case 5 => case 6 => case 7 =>
      case 8 => case 9 => case 10 => case 11 => case 12 => case 13 => case 14 => case 15 =>
      case 16 => case 17 => case 18 => case 19 => case 20 => case 21 => case 22 => case _ =>
    }
  }

  function Row0(d: nat): bv24 {
    if d == 0 then 0x000001 else if d == 1 then 0x000002 else if d == 2 then 0x000004
    else if d == 3 then 0x000008 else if d == 4 then 0x000010 else if d == 5 then 0x000020
    else if d == 6 then 0x000040 else if d == 7 then 0x000080 else if d == 8 then 0x000100
    else if d == 9 then 0x000200 else if d == 10 then 0x000400 else if d == 11 then 0x000800
    else if d == 12 then 0x001000 else if d == 13 then 0x002000 else if d == 14 then 0x004000
    else 0x008000
  }

  function Row1(d: nat): bv24 {
    if d == 16 then 0x010000 else if d == 17 then 0x020000 else if d == 18 then 0x040000
    else if d == 19 then 0x080000 else if d == 20 then 0x100000 else if d == 21 then 0x200000
    else if d == 22 then 0x400000 else if d == 23 then 0x800000 else if d == 24 then 0xfff409
    else if d == 25 then 0x001c1b else if d == 26 then 0x003836 else if d == 27 then 0x00706c
    else if d == 28 then 0x00e0d8 else if d == 29 then 0x01c1b0 else if d == 30 then 0x038360
    else 0x0706c0
  }

  function Row2(d: nat): bv24 {
    if d == 32 then 0x0e0d80 else if d == 33 then 0x1c1b00 else if d == 34 then 0x383600
    else if d == 35 then 0x706c00 else if d == 36 then 0xe0d800 else if d == 37 then 0x3e4409
    else if d == 38 then 0x7c8812 else if d == 39 then 0xf91024 else if d == 40 then 0x0dd441
    else if d == 41 then 0x1ba882 else if d == 42 then 0x375104 else if d == 43 then 0x6ea208
    else if d == 44 then 0xdd4410 else if d == 45 then 0x457c29 else if d == 46 then 0x8af852
    else 0xea04ad
  }

  function Row3(d: nat): bv24 {
    if d == 48 then 0x2bfd53 else if d == 49 then 0x57faa6 else if d == 50 then 0xaff54c
    else if d == 51 then 0xa01e91 else if d == 52 then 0xbfc92b else if d == 53 then 0x80665f
    else if d == 54 then 0xff38b7 else if d == 55 then 0x018567 else if d == 56 then 0x030ace
    else if d == 57 then 0x06159c else if d == 58 then 0x0c2b38 else if d == 59 then 0x185670
    else if d == 60 then 0x30ace0 else if d == 61 then 0x6159c0 else if d == 62 then 0xc2b380
    else 0x7a9309
  }

  function Row4(d: nat): bv24 {
    if d == 64 then 0xf52612 else if d == 65 then 0x15b82d else if d == 66 then 0x2b705a
    else if d == 67 then 0x56e0b4 else if d == 68 then 0xadc168 else if d == 69 then 0xa476d9
    else if d == 70 then 0xb719bb else if d == 71 then 0x91c77f else if d == 72 then 0xdc7af7
    else if d == 73 then 0x4701e7 else if d == 74 then 0x8e03ce else if d == 75 then 0xe3f395
    else if d == 76 then 0x381323 else if d == 77 then 0x702646 else if d == 78 then 0xe04c8c
    else 0x3f6d11
  }

  function Row5(d: nat): bv24 {
    if d == 80 then 0x7eda22 else if d == 81 then 0xfdb444 else if d == 82 then 0x049c81
    else if d == 83 then 0x093902 else if d == 84 then 0x127204 else if d == 85 then 0x24e408
    else if d == 86 then 0x49c810 else if d == 87 then 0x939020 else if d == 88 then 0xd8d449
    else if d == 89 then 0x4e5c9b else if d == 90 then 0x9cb936 else if d == 91 then 0xc68665
    else if d == 92 then 0x72f8c3 else if d == 93 then 0xe5f186 else if d == 94 then 0x341705
    else 0x682e0a
  }

  function Row6(d: nat): bv24 {
    if d == 96 then 0xd05c14 else if d == 97 then 0x5f4c21 else if d == 98 then 0xbe9842
    else if d == 99 then 0x82c48d else if d == 100 then 0xfa7d13 else if d == 101 then 0x0b0e2f
    else if d == 102 then 0x161c5e else if d == 103 then 0x2c38bc else if d == 104 then 0x587178
    else if d == 105 then 0xb0e2f0 else if d == 106 then 0x9e31e9 else if d == 107 then 0xc397db
    else if d == 108 then 0x78dbbf else if d == 109 then 0xf1b77e else if d == 110 then 0x1c9af5
    else 0x3935ea
  }

  /** The number of the remainder of x^d. */
  function PowerNumber(d: nat): bv24 {
    if d < 16 then Row0(d) else if d < 32 then Row1(d) else if d < 48 then Row2(d) else if d < 64 then Row3(d)
    else if d < 80 then Row4(d) else if d < 96 then Row5(d) else Row6(d)
  }

  lemma Doubles0(d: nat)
    requires 1 <= d < 16
    ensures PowerNumber(d) == Double(PowerNumber(d - 1))
    ensures PowerNumber(d) != 1
  {
  }

  lemma Doubles1(d: nat)
    requires 16 <= d < 32
    ensures PowerNumber(d) == Double(PowerNumber(d - 1))
    ensures PowerNumber(d) != 1
  {
  }

  lemma Doubles2(d: nat)
    requires 32 <= d < 48
    ensures PowerNumber(d) == Double(PowerNumber(d - 1))
    ensures PowerNumber(d) != 1
  {
  }

  lemma Doubles3(d: nat)
    requires 48 <= d < 64
    ensures PowerNumber(d) == Double(PowerNumber(d - 1))
    ensures PowerNumber(d) != 1
  {
  }

  lemma Doubles4(d: nat)
    requires 64 <= d < 80
    ensures PowerNumber(d) == Double(PowerNumber(d - 1))
    ensures PowerNumber(d) != 1
  {
  }

  lemma Doubles5(d: nat)
    requires 80 <= d < 96
    ensures PowerNumber(d) == Double(PowerNumber(d - 1))
    ensures PowerNumber(d) != 1
  {
  }

  lemma Doubles6(d: nat)
    requires 96 <= d < 112
    ensures PowerNumber(d) == Double(PowerNumber(d - 1))
    ensures PowerNumber(d) != 1
  {
  }

  lemma {:induction false} PowerStands(d: nat)
    requires d < 112
    ensures Stands(Zeros(One(), d), PowerNumber(d))
  {
    hide Stands, Double, ShiftIn, PowerNumber;
    if d == 0 {
      OneIs();
      PowerStarts();
    } else {
      PowerStands(d - 1);
      StandsDouble(Zeros(One(), d - 1), PowerNumber(d - 1));
      PowerDoubles(d);
    }
  }

  lemma PowerStarts()
    ensures PowerNumber(0) == 1
  {
  }

  lemma PowerDoubles(d: nat)
    requires 1 <= d < 112
    ensures PowerNumber(d) == Double(PowerNumber(d - 1)) && PowerNumber(d) != 1
  {
    hide PowerNumber, Double;
    if d < 16 {
      Doubles0(d);
    } else if d < 32 {
      Doubles1(d);
    } else if d < 48 {
      Doubles2(d);
    } else if d < 64 {
      Doubles3(d);
    } else if d < 80 {
      Doubles4(d);
    } else if d < 96 {
      Doubles5(d);
    } else {
      Doubles6(d);
    }
  }

  /** No power of x below 112 leaves remainder 1. */
  lemma PowerIsNotOne(d: nat)
    requires 1 <= d < 112
    ensures Zeros(One(), d) != One()
  {
    hide Stands, Zeros, One, PowerNumber, Double;
    PowerStands(d);
    PowerDoubles(d);
    OneStands(PowerNumber(d));
  }

  // ---------------------------------------------------------------- messages too short

  /** Of two bytes a, b the answer is the number b a b; of fewer there is none. */
  lemma ShortMessages(msg: seq<Byte>)
    requires |msg| <= 2
    ensures |msg| == 2 ==>
      var crc := Crc24.Crc24(msg);
      crc.Remainder? && Value(crc.rem) == 0x1_0000 * ByteValue(msg[1]) + 0x100 * ByteValue(msg[0]) + ByteValue(msg[1])
    ensures |msg| < 2 ==> Crc24.Crc24(msg) == IndexError
  {
    hide Value;
    if |msg| == 2 {
      var low: Bits := msg[1];
      ValueAppend(low + msg[0], msg[1]);
      ValueAppend(low, msg[0]);
      assert Power2(8) == 0x100;
      assert Power2(16) == 0x1_0000 by { Power2Of32(); }
    }
  }

  // ---------------------------------------------------------------- few wrong bits

  /** Two wrong bits. */
  function Pair(n: nat, i: nat, j: nat): (e: Bits)
    requires i < j < n
    ensures |e| == n
  {
    seq(n, k => k == i || k == j)
  }

  lemma PairParts(n: nat, i: nat, j: nat)
    requires i < j < n
    ensures Pair(n, i, j) == Zero(i) + [true] + (Zero(j - i - 1) + [true]) + Zero(n - 1 - j)
  {
  }

  /** Two wrong bits less than 112 apart leave a remainder. */
  lemma PairRemainder(n: nat, i: nat, j: nat)
    requires i < j < n && j - i < 112
    ensures Divide(Pair(n, i, j)) != Zero(24)
  {
    hide POLY, ShiftIn, Feed, Zeros, Pair;
    var gap, end := Zero(j - i - 1) + [true], Zero(n - 1 - j);
    PairParts(n, i, j);
    FeedConcat(Zero(24), Zero(i) + [true] + gap, end);
    FeedConcat(Zero(24), Zero(i) + [true], gap);
    LeadingZeros(i, [true]);
    DivideOne();
    assert Divide(Zero(i) + [true]) == One();
    FeedSplit(One(), gap);
    LeadingZeros(j - i - 1, [true]);
    assert Divide(gap) == One();
    var r := Xor(Zeros(One(), j - i), One());
    assert Divide(Zero(i) + [true] + gap) == r;
    FeedZeros(r, n - 1 - j);
    PowerIsNotOne(j - i);
    if Divide(Pair(n, i, j)) == Zero(24) {
      ZerosKeepNonzero(r, n - 1 - j);
      XorSelf(Zeros(One(), j - i), One());
      WeightZero(r);
    }
  }

  lemma DivideOne()
    ensures Divide([true]) == One()
  {
    FeedShort([true]);
    assert Divide([true]) == One();
  }

  lemma TwoOnes(e: Bits) returns (i: nat, j: nat)
    requires Weight(e) == 2
    ensures i < j < |e| && e == Pair(|e|, i, j)
  {
    var a := SomeOne(e);
    var rest := e[a := false];
    var b := SomeOne(rest);
    WeightZero(rest[b := false]);
    i, j := if a < b then a else b, if a < b then b else a;
    forall k | 0 <= k < |e| ensures e[k] == Pair(|e|, i, j)[k] {
      assert !rest[b := false][k];
    }
  }

  /** The bits in which two messages of the same length differ. */
  function Wrong(msg: seq<Byte>, received: seq<Byte>): Bits
    requires |msg| == |received|
  {
    Xor(MessageBits(msg), MessageBits(received))
  }

  lemma RemainderOfWrong(msg: seq<Byte>, received: seq<Byte>)
    requires |msg| == |received| >= 3 && Crc24.Crc24(msg) == Remainder(Zero(24))
    ensures Crc24.Crc24(received) == Remainder(Divide(Wrong(msg, received)))
  {
    hide Divide, MessageBits;
    var a, b := MessageBits(msg), MessageBits(received);
    DivideLinear(a, b);
    assert Xor(Zero(24), Divide(b)) == Divide(b);
  }

  /** A valid message, of any length, in which an odd number of bits is wrong is refused. */
  lemma OddDetected(msg: seq<Byte>, received: seq<Byte>)
    requires |msg| == |received| >= 3 && Crc24.Crc24(msg) == Remainder(Zero(24))
    requires Weight(Wrong(msg, received)) % 2 == 1
    ensures Crc24.Crc24(received) != Remainder(Zero(24))
  {
    hide Divide, Wrong, Crc24.Crc24;
    RemainderOfWrong(msg, received);
    OddDivides(Wrong(msg, received));
    NoneOdd();
  }

  /** Two different valid messages as long as the receiver takes them differ in at least four bits: any
      one, two or three wrong bits are found. */
  lemma FewDetected(msg: seq<Byte>, received: seq<Byte>)
    requires 3 <= |msg| == |received| <= 14 && Crc24.Crc24(msg) == Remainder(Zero(24))
    requires 1 <= Weight(Wrong(msg, received)) <= 3
    ensures Crc24.Crc24(received) != Remainder(Zero(24))
  {
    hide Divide, Crc24.Crc24, Weight, Pair;
    var e := Wrong(msg, received);
    if Weight(e) == 2 {
      RemainderOfWrong(msg, received);
      var i, j := TwoOnes(e);
      PairRemainder(|e|, i, j);
    } else {
      OddDetected(msg, received);
    }
  }
}
