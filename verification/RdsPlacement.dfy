/** What becomes of intact words that are taken for blocks of another position: after sync has been
    gained on offset C' or D the blocks are counted wrongly. */
module RdsPlacement {
  import opened Words
  import opened RdsSyndrome
  import opened RdsBlock
  import opened RdsCorrection

  lemma BitsOfA()
    ensures OffsetA() == [false, false, true, true, true, true, true, true, false, false]
  {
    hide Unpack;
    UnpackBit(0xFC, 10, 0);
    UnpackBit(0xFC, 10, 1);
    UnpackBit(0xFC, 10, 2);
    UnpackBit(0xFC, 10, 3);
    UnpackBit(0xFC, 10, 4);
    UnpackBit(0xFC, 10, 5);
    UnpackBit(0xFC, 10, 6);
    UnpackBit(0xFC, 10, 7);
    UnpackBit(0xFC, 10, 8);
    UnpackBit(0xFC, 10, 9);
  }

  lemma BitsOfB()
    ensures OffsetB() == [false, false, false, true, true, false, false, true, true, false]
  {
    hide Unpack;
    UnpackBit(0x198, 10, 0);
    UnpackBit(0x198, 10, 1);
    UnpackBit(0x198, 10, 2);
    UnpackBit(0x198, 10, 3);
    UnpackBit(0x198, 10, 4);
    UnpackBit(0x198, 10, 5);
    UnpackBit(0x198, 10, 6);
    UnpackBit(0x198, 10, 7);
    UnpackBit(0x198, 10, 8);
    UnpackBit(0x198, 10, 9);
  }

  lemma BitsOfD()
    ensures OffsetD() == [false, false, true, false, true, true, false, true, true, false]
  {
    hide Unpack;
    UnpackBit(0x1B4, 10, 0);
    UnpackBit(0x1B4, 10, 1);
    UnpackBit(0x1B4, 10, 2);
    UnpackBit(0x1B4, 10, 3);
    UnpackBit(0x1B4, 10, 4);
    UnpackBit(0x1B4, 10, 5);
    UnpackBit(0x1B4, 10, 6);
    UnpackBit(0x1B4, 10, 7);
    UnpackBit(0x1B4, 10, 8);
    UnpackBit(0x1B4, 10, 9);
  }

  lemma OffsetNumbers()
    ensures Num(OffsetA(), 0) == 0x0FC && Num(OffsetB(), 0) == 0x198 && Num(OffsetC(), 0) == 0x168
    ensures Num(OffsetC2(), 0) == 0x350 && Num(OffsetD(), 0) == 0x1B4
  {
    hide Num, OffsetA, OffsetB, OffsetC, OffsetC2, OffsetD;
    BitsOfA();
    BitsOfB();
    BitsOfC();
    BitsOfC2();
    BitsOfD();
    NumBits(OffsetA());
    NumBits(OffsetB());
    NumBits(OffsetC());
    NumBits(OffsetC2());
    NumBits(OffsetD());
  }

  /** An error syndrome with a number that no pattern of the smaller table has, and which is not
      zero, has no entry. */
  lemma NoEntry(error: Syn)
    requires forall i: nat :: i < 26 ==> PowerOf(i) != Num(error, 0)
    requires forall start: nat, length: nat :: 2 <= length <= 5 && start + length <= 10 ==>
      Ones(start, length) != Num(error, 0)
    ensures error !in Lookup(false)
  {
    hide Num, PowerOf, Ones, Syndrome, Lookup, ErrorOf;
    if error in Lookup(false) {
      var d := EntryFrom(error, false);
      DamageShown(d);
    }
  }

  /** What a position makes of an error syndrome that has an entry. */
  lemma TakenAs(c: Block, position: nat, d: Damage, twoBitData: bool)
    requires position < 4 && Possible(d) && !d.PairAt?
    requires Num(Xor(Syndrome(c), Offsets(position)[0]), 0) == Shown(d)
    ensures Verified(c, position, Lookup(twoBitData)) == (DataOf(Xor(c, ErrorOf(d))), true)
  {
    hide Num, Syndrome, Lookup, ErrorOf, Shown, OffsetA, OffsetB, OffsetC, OffsetC2, OffsetD;
    DamageShown(d);
    SameNumber(Xor(Syndrome(c), Offsets(position)[0]), Syndrome(ErrorOf(d)));
    DamageShows(d);
    EntryOf(d, twoBitData);
  }

  lemma Refused(c: Block, position: nat)
    requires position < 2 || position == 3
    requires Xor(Syndrome(c), Offsets(position)[0]) !in Lookup(false)
    requires Xor(Syndrome(c), Offsets(position)[0]) != NO_ERROR
    ensures Verified(c, position, Lookup(false)) == (DataOf(c), false)
  {
    hide Syndrome, Lookup, OffsetA, OffsetB, OffsetC, OffsetC2, OffsetD;
    assert Offsets(position)[1..] == [];
    assert VerifyAgainst(c, Offsets(position), Lookup(false)) == VerifyAgainst(c, [], Lookup(false));
  }

  lemma NoPatternNumbers(i: nat, start: nat, length: nat)
    requires i < 26 && 2 <= length <= 5 && start + length <= 10
    ensures PowerOf(i) != 0x164 && Ones(start, length) != 0x164
    ensures PowerOf(i) != 0x148 && Ones(start, length) != 0x148
  {
  }

  lemma SumsOfOffsets()
    ensures Sum(0x0FC, 0x198) == 0x164 && Sum(0x1B4, 0x0FC) == 0x148
    ensures Sum(0x198, 0x168) == Ones(4, 4) && Sum(0x168, 0x1B4) == PowerOf(18)
  {
  }

  lemma NothingHasNoNumber(error: Syn)
    requires Num(error, 0) != 0
    ensures error != NO_ERROR
  {
    hide Num;
    NothingShown();
  }

  /** Which number an intact word shows at a position. */
  lemma ShownAt(c: Block, offset: Syn, position: nat)
    requires position < 4 && Syndrome(c) == offset
    ensures Num(Xor(Syndrome(c), Offsets(position)[0]), 0) == Sum(Num(offset, 0), Num(Offsets(position)[0], 0))
  {
    hide Num, Syndrome, OffsetA, OffsetB, OffsetC, OffsetC2, OffsetD;
    NumSum(offset, Offsets(position)[0], 0);
  }

  lemma RefusedNumber(c: Block, position: nat)
    requires position < 2
    requires var v := Num(Xor(Syndrome(c), Offsets(position)[0]), 0); v == 0x164 || v == 0x148
    ensures Verified(c, position, Lookup(false)) == (DataOf(c), false)
  {
    hide Num, Syndrome, Lookup, PowerOf, Ones, OffsetA, OffsetB, OffsetC, OffsetC2, OffsetD;
    var error: Syn := Xor(Syndrome(c), Offsets(position)[0]);
    NothingHasNoNumber(error);
    forall i: nat | i < 26 ensures PowerOf(i) != Num(error, 0) {
      NoPatternNumbers(i, 0, 2);
    }
    forall start: nat, length: nat | 2 <= length <= 5 && start + length <= 10
      ensures Ones(start, length) != Num(error, 0)
    {
      NoPatternNumbers(0, start, length);
    }
    NoEntry(error);
    Refused(c, position);
  }

  /** After gaining sync on offset C' or D every block is counted one position ahead: A as block 1, B as
      2, C as 3, D as 0. While no PI code is held, intact words A and D are refused. With either
      table B is accepted as block 2, and C as block 3 with data bit 18 wrong. */
  lemma CountedOneAhead(c: Block, twoBitData: bool)
    ensures Syndrome(c) == OffsetA() ==> Verified(c, 1, Lookup(false)) == (DataOf(c), false)
    ensures Syndrome(c) == OffsetB() ==> Verified(c, 2, Lookup(twoBitData)) == (DataOf(c), true)
    ensures Syndrome(c) == OffsetC() ==> Verified(c, 3, Lookup(twoBitData)) == (DataOf(Xor(c, Run(18, 1))), true)
    ensures Syndrome(c) == OffsetD() ==> Verified(c, 0, Lookup(false)) == (DataOf(c), false)
  {
    hide Num, Syndrome, Lookup, PowerOf, Ones, Sum, Verified, OffsetA, OffsetB, OffsetC, OffsetC2, OffsetD;
    OffsetNumbers();
    SumsOfOffsets();
    if Syndrome(c) == OffsetA() {
      ShownAt(c, OffsetA(), 1);
      RefusedNumber(c, 1);
    } else if Syndrome(c) == OffsetB() {
      ShownAt(c, OffsetB(), 2);
      TakenAs(c, 2, BurstAt(4, 4), twoBitData);
      CheckBitsOnly(c, 4, 4);
    } else if Syndrome(c) == OffsetC() {
      ShownAt(c, OffsetC(), 3);
      TakenAs(c, 3, BitAt(18), twoBitData);
    } else if Syndrome(c) == OffsetD() {
      ShownAt(c, OffsetD(), 0);
      RefusedNumber(c, 0);
    }
    OffsetsDiffer();
  }

  lemma OffsetsDiffer()
    ensures OffsetA() != OffsetB() && OffsetA() != OffsetC() && OffsetA() != OffsetD()
    ensures OffsetB() != OffsetC() && OffsetB() != OffsetD() && OffsetC() != OffsetD()
  {
    hide OffsetA, OffsetB, OffsetC, OffsetC2, OffsetD, Num;
    OffsetNumbers();
  }

  lemma CheckBitsOnly(c: Block, start: nat, length: nat)
    requires start + length <= 10
    ensures DataOf(Xor(c, Run(start, length))) == DataOf(c)
  {
    forall k | 0 <= k < 16 ensures DataOf(Xor(c, Run(start, length)))[k] == DataOf(c)[k] {
      assert DataOf(Xor(c, Run(start, length)))[k] == Xor(c, Run(start, length))[10 + k];
    }
  }

  /** Concretely: an intact word C taken for block 3 is passed as valid with wrong data. */
  lemma MiscountedWitness(c: Block, twoBitData: bool)
    requires Syndrome(c) == OffsetC()
    ensures Verified(c, 3, Lookup(twoBitData)).1 && Verified(c, 3, Lookup(twoBitData)).0 != DataOf(c)
  {
    hide Syndrome, Lookup, Verified, OffsetC;
    CountedOneAhead(c, twoBitData);
    assert DataOf(Xor(c, Run(18, 1)))[8] == Xor(c, Run(18, 1))[18];
    assert DataOf(c)[8] == c[18];
  }
}
