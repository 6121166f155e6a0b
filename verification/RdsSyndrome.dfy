/** The syndromes of RDS blocks: division of a 26-bit word by the generator polynomial
    x^10 + x^8 + x^7 + x^5 + x^4 + x^3 + 1, and what error patterns leave. */
module RdsSyndrome {
  import opened Words
  import opened ShiftRegister

  // As in Words, index i is the bit of weight 2^i.
  type Block = b: Bits | |b| == 26 witness seq(26, _ => false)
  type Syn = s: Bits | |s| == 10 witness seq(10, _ => false)

  const CRC_POLY: Syn := Unpack(0x1B9, 10)
  const NO_ERROR: Syn := [false, false, false, false, false, false, false, false, false, false]

  // ---------------------------------------------------------------- syndromes

  function ShiftIn(reg: Syn, bit: bool): Syn {
    Shift(CRC_POLY, reg, bit)
  }

  /** The register after bits 25..i of the block. */
  function SyndromeDown(block: Block, i: nat): Syn
    requires i <= 26
    decreases 26 - i
  {
    if i == 26 then NO_ERROR else ShiftIn(SyndromeDown(block, i + 1), block[i])
  }

  function Syndrome(block: Block): Syn {
    SyndromeDown(block, 0)
  }

  method CalcSyndrome(block: Block) returns (reg: Syn)
    ensures reg == Syndrome(block)
  {
    hide CRC_POLY;
    reg := NO_ERROR;
    var i := 26;
    while i > 0
      invariant 0 <= i <= 26 && reg == SyndromeDown(block, i)
    {
      i := i - 1;
      var msb := reg[9];
      reg := [block[i]] + reg[..9];
      if msb {
        reg := Xor(reg, CRC_POLY);
      }
    }
  }

  lemma ShiftInXor(a: Syn, p: bool, b: Syn, q: bool)
    ensures ShiftIn(Xor(a, b), p != q) == Xor(ShiftIn(a, p), ShiftIn(b, q))
  {
    ShiftSum(CRC_POLY, a, p, b, q);
  }

  lemma ShiftInBit(reg: Syn, bit: bool, k: nat)
    requires k < 10
    ensures ShiftIn(reg, bit)[k] == ((if k == 0 then bit else reg[k - 1]) != (reg[9] && CRC_POLY[k]))
  {
    ShiftBit(CRC_POLY, reg, bit, k);
  }

  lemma {:induction false} SyndromeDownXor(a: Block, b: Block, i: nat)
    requires i <= 26
    ensures SyndromeDown(Xor(a, b), i) == Xor(SyndromeDown(a, i), SyndromeDown(b, i))
    decreases 26 - i
  {
    hide ShiftIn;
    if i < 26 {
      SyndromeDownXor(a, b, i + 1);
      ShiftInXor(SyndromeDown(a, i + 1), a[i], SyndromeDown(b, i + 1), b[i]);
    } else {
      assert Xor(NO_ERROR, NO_ERROR) == NO_ERROR;
    }
  }

  /** Syndromes are linear: an error adds its own. */
  lemma SyndromeXor(a: Block, b: Block)
    ensures Syndrome(Xor(a, b)) == Xor(Syndrome(a), Syndrome(b))
  {
    SyndromeDownXor(a, b, 0);
  }

  // ---------------------------------------------------------------- error patterns

  /** length ones from bit start up. */
  function Run(start: nat, length: nat): Block
    requires start + length <= 26
  {
    seq(26, i => start <= i < start + length)
  }

  function Pair(i: nat, j: nat): Block
    requires i < j < 26
  {
    seq(26, k => k == i || k == j)
  }

  function One(): Syn {
    [true, false, false, false, false, false, false, false, false, false]
  }

  /** x^i modulo the generator: the syndrome of an error in bit i. */
  function Single(i: nat): Syn {
    if i == 0 then One() else ShiftIn(Single(i - 1), false)
  }

  lemma {:induction false} SyndromeOfBit(i: nat, k: nat)
    requires i < 26 && k <= 26
    ensures SyndromeDown(Run(i, 1), k) == if k > i then NO_ERROR else Single(i - k)
    decreases 26 - k
  {
    hide ShiftIn;
    if k < 26 {
      SyndromeOfBit(i, k + 1);
      ShiftZero();
    }
  }

  lemma ShiftZero()
    ensures ShiftIn(NO_ERROR, false) == NO_ERROR && ShiftIn(NO_ERROR, true) == One()
  {
    hide CRC_POLY;
  }

  lemma BitSyndrome(i: nat)
    requires i < 26
    ensures Syndrome(Run(i, 1)) == Single(i)
  {
    SyndromeOfBit(i, 0);
  }

  lemma PairSyndrome(i: nat, j: nat)
    requires i < j < 26
    ensures Syndrome(Pair(i, j)) == Xor(Single(i), Single(j))
  {
    hide Syndrome;
    assert Pair(i, j) == Xor(Run(i, 1), Run(j, 1));
    SyndromeXor(Run(i, 1), Run(j, 1));
    BitSyndrome(i);
    BitSyndrome(j);
  }

  /** Check bits are their own syndrome: they never reach the top of the register. */
  lemma {:induction false} CheckBits(e: Block, i: nat)
    requires i <= 26 && forall k :: 10 <= k < 26 ==> !e[k]
    ensures forall k :: 0 <= k < 10 ==> SyndromeDown(e, i)[k] == (i + k < 26 && e[i + k])
    decreases 26 - i
  {
    hide ShiftIn, CRC_POLY;
    if i < 26 {
      CheckBits(e, i + 1);
      forall k | 0 <= k < 10 ensures SyndromeDown(e, i)[k] == (i + k < 26 && e[i + k]) {
        ShiftInBit(SyndromeDown(e, i + 1), e[i], k);
      }
    }
  }

  lemma BurstSyndrome(start: nat, length: nat)
    requires start + length <= 10
    ensures forall k :: 0 <= k < 10 ==> Syndrome(Run(start, length))[k] == (start <= k < start + length)
  {
    CheckBits(Run(start, length), 0);
  }

  // ---------------------------------------------------------------- syndromes as numbers

  function Sum(v: bv10, w: bv10): bv10 {
    v ^ w
  }

  function Push(v: bv10, bit: bool): bv10 {
    (v << 1) ^ (if bit then 1 else 0)
  }

  /** Bits k and up of a register as a number; Num(s, 0) is the number it holds. */
  function Num(s: Syn, k: nat): bv10
    requires k <= 10
    decreases 10 - k
  {
    if k == 10 then 0 else Push(Num(s, k + 1), s[k])
  }

  lemma PushSum(v: bv10, p: bool, w: bv10, q: bool)
    ensures Push(Sum(v, w), p != q) == Sum(Push(v, p), Push(w, q))
    ensures Sum(0, 0) == 0
  {
  }

  lemma {:induction false} NumSum(a: Syn, b: Syn, k: nat)
    requires k <= 10
    ensures Num(Xor(a, b), k) == Sum(Num(a, k), Num(b, k))
    decreases 10 - k
  {
    hide Push, Sum;
    PushSum(0, false, 0, false);
    if k < 10 {
      NumSum(a, b, k + 1);
      PushSum(Num(a, k + 1), a[k], Num(b, k + 1), b[k]);
    }
  }

  /** Upper bounds of what ten, nine, ... bits can hold. */
  function Limit(k: nat): bv10
    requires 1 <= k <= 10
  {
    if k == 1 then 512 else if k == 2 then 256 else if k == 3 then 128 else if k == 4 then 64
    else if k == 5 then 32 else if k == 6 then 16 else if k == 7 then 8 else if k == 8 then 4
    else if k == 9 then 2 else 1
  }

  lemma PushBelow(v: bv10, bit: bool, k: nat)
    requires 2 <= k <= 10 && v < Limit(k)
    ensures Push(v, bit) < Limit(k - 1)
  {
  }

  lemma {:induction false} NumBelow(s: Syn, k: nat)
    requires 1 <= k <= 10
    ensures Num(s, k) < Limit(k)
    decreases 10 - k
  {
    hide Push;
    if k < 10 {
      NumBelow(s, k + 1);
      PushBelow(Num(s, k + 1), s[k], k + 1);
    }
  }

  lemma PushInjective(v: bv10, p: bool, w: bv10, q: bool)
    requires v < 512 && w < 512 && Push(v, p) == Push(w, q)
    ensures v == w && p == q
  {
  }

  lemma {:induction false} NumInjective(a: Syn, b: Syn, k: nat)
    requires k <= 10 && Num(a, k) == Num(b, k)
    ensures a[k..] == b[k..]
    decreases 10 - k
  {
    hide Push, Limit;
    if k < 10 {
      NumBelow(a, k + 1);
      NumBelow(b, k + 1);
      assert forall m :: 1 <= m <= 10 ==> Limit(m) <= 512 by { LimitsFall(); }
      PushInjective(Num(a, k + 1), a[k], Num(b, k + 1), b[k]);
      NumInjective(a, b, k + 1);
      assert a[k..] == [a[k]] + a[k + 1..];
      assert b[k..] == [b[k]] + b[k + 1..];
    }
  }

  lemma LimitsFall()
    ensures forall m :: 1 <= m <= 10 ==> Limit(m) <= 512
  {
  }

  lemma SameNumber(a: Syn, b: Syn)
    requires Num(a, 0) == Num(b, 0)
    ensures a == b
  {
    NumInjective(a, b, 0);
    assert a[0..] == a && b[0..] == b;
  }

  lemma NumBits(s: Syn)
    ensures Num(s, 0) ==
      Push(Push(Push(Push(Push(Push(Push(Push(Push(Push(0,
        s[9]), s[8]), s[7]), s[6]), s[5]), s[4]), s[3]), s[2]), s[1]), s[0])
  {
    hide Push;
    assert Num(s, 8) == Push(Push(0, s[9]), s[8]);
    assert Num(s, 6) == Push(Push(Num(s, 8), s[7]), s[6]);
    assert Num(s, 4) == Push(Push(Num(s, 6), s[5]), s[4]);
    assert Num(s, 2) == Push(Push(Num(s, 4), s[3]), s[2]);
  }

  /** x^i modulo the generator, as a number. */
  function PowerOf(i: nat): bv10 {
    if i == 0 then 1 else if i == 1 then 2 else if i == 2 then 4 else if i == 3 then 8
    else if i == 4 then 16 else if i == 5 then 32 else if i == 6 then 64 else if i == 7 then 128
    else if i == 8 then 256 else if i == 9 then 512 else if i == 10 then 441 else if i == 11 then 882
    else if i == 12 then 861 else if i == 13 then 771 else if i == 14 then 959 else if i == 15 then 711
    else if i == 16 then 55 else if i == 17 then 110 else if i == 18 then 220 else if i == 19 then 440
    else if i == 20 then 880 else if i == 21 then 857 else if i == 22 then 779 else if i == 23 then 943
    else if i == 24 then 743 else 119
  }

  function Double(v: bv10): bv10 {
    if v & 512 != 0 then (v << 1) ^ 441 else v << 1
  }

  lemma PowersNeverOne(i: nat)
    requires 1 <= i < 26
    ensures PowerOf(i) != PowerOf(0)
  {
  }

  lemma PowersDouble(i: nat)
    requires 1 <= i < 26
    ensures PowerOf(i) == Double(PowerOf(i - 1))
  {
  }

  lemma ConstantTerm()
    ensures CRC_POLY[0]
  {
    hide Unpack;
    UnpackLow(0x1B9, 10);
  }

  lemma PolyBits()
    ensures CRC_POLY[0] && !CRC_POLY[1] && !CRC_POLY[2] && CRC_POLY[3] && CRC_POLY[4]
    ensures CRC_POLY[5] && !CRC_POLY[6] && CRC_POLY[7] && CRC_POLY[8] && !CRC_POLY[9]
  {
    hide Unpack;
    UnpackBit(0x1B9, 10, 0);
    UnpackBit(0x1B9, 10, 1);
    UnpackBit(0x1B9, 10, 2);
    UnpackBit(0x1B9, 10, 3);
    UnpackBit(0x1B9, 10, 4);
    UnpackBit(0x1B9, 10, 5);
    UnpackBit(0x1B9, 10, 6);
    UnpackBit(0x1B9, 10, 7);
    UnpackBit(0x1B9, 10, 8);
    UnpackBit(0x1B9, 10, 9);
  }

  lemma PolyNumber()
    ensures Num(CRC_POLY, 0) == 441
  {
    hide CRC_POLY, Num;
    PolyBits();
    NumBits(CRC_POLY);
  }

  /** Bits moved up one place. */
  lemma {:induction false} NumMoved(low: Syn, moved: Syn, k: nat)
    requires k <= 9 && !low[9] && moved == [false] + low[..9]
    ensures Num(moved, k + 1) == Num(low, k)
    decreases 9 - k
  {
    hide Push;
    if k < 9 {
      NumMoved(low, moved, k + 1);
    } else {
      PushNothing();
    }
  }

  lemma PushNothing()
    ensures Push(0, false) == 0
  {
  }

  lemma TopNumber(top: Syn)
    requires forall k :: 0 <= k < 9 ==> !top[k]
    ensures Num(top, 0) == if top[9] then 512 else 0
  {
    hide Num;
    NumBits(top);
  }

  /** Shifting a register doubles its number, modulo the generator. */
  lemma ShiftNumber(reg: Syn)
    ensures Num(ShiftIn(reg, false), 0) == Double(Num(reg, 0))
  {
    hide Push, Double, Sum, CRC_POLY, Xor;
    var low: Syn := reg[..9] + [false];
    var top: Syn := Zeros9() + [reg[9]];
    var moved: Syn := [false] + reg[..9];
    assert reg == Xor(low, top) by { Split(reg, low, top); }
    NumSum(low, top, 0);
    TopNumber(top);
    NumMoved(low, moved, 0);
    assert Num(moved, 0) == Push(Num(low, 0), false);
    NumSum(moved, CRC_POLY, 0);
    PolyNumber();
    LowBelow(low);
    DoubleSplit(Num(low, 0), reg[9]);
  }

  function Zeros9(): (z: Bits)
    ensures |z| == 9 && forall k :: 0 <= k < 9 ==> !z[k]
  {
    seq(9, _ => false)
  }

  lemma Split(reg: Syn, low: Syn, top: Syn)
    requires low == reg[..9] + [false] && top == Zeros9() + [reg[9]]
    ensures reg == Xor(low, top)
  {
  }

  lemma LowBelow(low: Syn)
    requires !low[9]
    ensures Num(low, 0) < 512
  {
    hide Push;
    var moved: Syn := [false] + low[..9];
    NumMoved(low, moved, 0);
    NumBelow(moved, 1);
  }

  lemma DoubleSplit(v: bv10, top: bool)
    requires v < 512
    ensures Double(Sum(v, if top then 512 else 0)) ==
      if top then Sum(Push(v, false), 441) else Push(v, false)
  {
  }

  lemma {:induction false} SingleNumber(i: nat)
    requires i < 26
    ensures Num(Single(i), 0) == PowerOf(i)
  {
    hide ShiftIn, Num, PowerOf, Double;
    if i == 0 {
      OneNumber();
    } else {
      SingleNumber(i - 1);
      ShiftNumber(Single(i - 1));
      PowersDouble(i);
    }
  }

  lemma OneNumber()
    ensures Num(One(), 0) == PowerOf(0)
  {
    NumBits(One());
  }

  lemma ShiftInjective(a: Syn, b: Syn)
    requires ShiftIn(a, false) == ShiftIn(b, false)
    ensures a == b
  {
    ConstantTerm();
    ShiftOneToOne(CRC_POLY, a, b);
  }

  /** The 26 single-bit errors have 26 different syndromes. */
  lemma {:induction false} SinglesDistinct(i: nat, j: nat)
    requires i < j < 26
    ensures Single(i) != Single(j)
  {
    hide ShiftIn;
    if i == 0 {
      SingleNumber(0);
      SingleNumber(j);
      PowersNeverOne(j);
    } else {
      SinglesDistinct(i - 1, j - 1);
      if Single(i) == Single(j) {
        ShiftInjective(Single(i - 1), Single(j - 1));
      }
    }
  }

  lemma {:induction false} SingleNonzero(i: nat)
    ensures Single(i) != NO_ERROR
  {
    hide ShiftIn;
    if i > 0 {
      SingleNonzero(i - 1);
      assert ShiftIn(NO_ERROR, false) == NO_ERROR by { ShiftZero(); }
      if Single(i) == NO_ERROR {
        ShiftInjective(Single(i - 1), NO_ERROR);
      }
    }
  }

  lemma BitSyndromesDistinct(n: nat)
    requires n < 26
    ensures forall i :: 0 <= i < n ==> Syndrome(Run(i, 1)) != Syndrome(Run(n, 1))
  {
    hide Syndrome, Single;
    BitSyndrome(n);
    forall i | 0 <= i < n ensures Syndrome(Run(i, 1)) != Syndrome(Run(n, 1)) {
      BitSyndrome(i);
      SinglesDistinct(i, n);
    }
  }
}
