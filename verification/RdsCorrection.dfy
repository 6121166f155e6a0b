/** What block verification does with damaged words, for the two tables in use: which patterns
    are repaired, which are passed as valid with wrong data, and why. */
module RdsCorrection {
  import opened Words
  import opened RdsSyndrome
  import opened RdsBlock

  /** The two tables: bursts up to five check bits, without and with pairs of data bits. */
  function Lookup(twoBitData: bool): Table {
    TableOf(Listed(5, twoBitData))
  }

  // ---------------------------------------------------------------- numbers that differ

  lemma BitsDiffer(i: nat, j: nat)
    requires i < 26 && j < 26 && PowerOf(i) == PowerOf(j)
    ensures i == j
  {
  }

  /** x^i + x^(i+9) = x^(i-10), and no other two data bits look like one bit. */
  lemma PairAsBit(i: nat, j: nat, k: nat)
    requires 10 <= i < j < 26 && k < 26
    ensures Sum(PowerOf(i), PowerOf(j)) == PowerOf(k) <==> j == i + 9 && k + 10 == i
  {
  }

  lemma PairsDiffer(i: nat, j: nat, k: nat, l: nat)
    requires 10 <= i < j < 26 && 10 <= k < l < 26 && Sum(PowerOf(i), PowerOf(j)) == Sum(PowerOf(k), PowerOf(l))
    ensures i == k && j == l
  {
    hide Sum, PowerOf;
    if i <= k {
      PairsDifferUpward(i, j, k, l);
    } else {
      PairsDifferUpward(k, l, i, j);
    }
  }

  lemma PairsDifferUpward(i: nat, j: nat, k: nat, l: nat)
    requires 10 <= i < j < 26 && i <= k < l < 26 && Sum(PowerOf(i), PowerOf(j)) == Sum(PowerOf(k), PowerOf(l))
    ensures i == k && j == l
  {
    hide Sum, PowerOf;
    if i <= 12 {
      LowPairsDiffer(i, j, k, l);
    } else {
      HighPairsDiffer(i, j, k, l);
    }
  }

  lemma LowPairsDiffer(i: nat, j: nat, k: nat, l: nat)
    requires 10 <= i <= 12 && i < j < 26 && i <= k < l < 26
    requires Sum(PowerOf(i), PowerOf(j)) == Sum(PowerOf(k), PowerOf(l))
    ensures i == k && j == l
  {
  }

  lemma HighPairsDiffer(i: nat, j: nat, k: nat, l: nat)
    requires 13 <= i < j < 26 && i <= k < l < 26 && Sum(PowerOf(i), PowerOf(j)) == Sum(PowerOf(k), PowerOf(l))
    ensures i == k && j == l
  {
  }

  /** length ones from bit start up, as a number. */
  function Ones(start: nat, length: nat): bv10
    requires start + length <= 10
  {
    Push(Push(Push(Push(Push(Push(Push(Push(Push(Push(0,
      start <= 9 < start + length), start <= 8 < start + length), start <= 7 < start + length),
      start <= 6 < start + length), start <= 5 < start + length), start <= 4 < start + length),
      start <= 3 < start + length), start <= 2 < start + length), start <= 1 < start + length),
      start <= 0 < start + length)
  }

  lemma BitIsNoBurst(i: nat, start: nat, length: nat)
    requires i < 26 && 2 <= length <= 5 && start + length <= 10
    ensures PowerOf(i) != Ones(start, length)
  {
  }

  lemma PairIsNoBurst(i: nat, j: nat, start: nat, length: nat)
    requires 10 <= i < j < 26 && 2 <= length <= 5 && start + length <= 10
    ensures Sum(PowerOf(i), PowerOf(j)) != Ones(start, length)
  {
  }

  lemma BurstsDiffer(start: nat, length: nat, start': nat, length': nat)
    requires 2 <= length <= 5 && start + length <= 10 && 2 <= length' <= 5 && start' + length' <= 10
    requires Ones(start, length) == Ones(start', length')
    ensures start == start' && length == length'
  {
  }

  /** C + C' = 0x238 is the number of no pattern. */
  lemma OffsetsDifferAsNoPattern(i: nat, j: nat, start: nat, length: nat)
    requires 10 <= i < j < 26 && 2 <= length <= 5 && start + length <= 10
    ensures Sum(PowerOf(i), PowerOf(j)) != 0x238 && Ones(start, length) != 0x238
  {
  }

  lemma OffsetsDifferAsNoBit(i: nat)
    requires i < 26
    ensures PowerOf(i) != 0x238
  {
  }

  // ---------------------------------------------------------------- patterns

  /** A listed pattern by its kind and place. */
  datatype Damage = BitAt(i: nat) | PairAt(i: nat, j: nat) | BurstAt(start: nat, length: nat)

  predicate Possible(d: Damage) {
    match d
    case BitAt(i) => i < 26
    case PairAt(i, j) => 10 <= i < j < 26
    case BurstAt(start, length) => 2 <= length <= 5 && start + length <= 10
  }

  function ErrorOf(d: Damage): Block
    requires Possible(d)
  {
    match d
    case BitAt(i) => Run(i, 1)
    case PairAt(i, j) => Pair(i, j)
    case BurstAt(start, length) => Run(start, length)
  }

  function Shown(d: Damage): bv10
    requires Possible(d)
  {
    match d
    case BitAt(i) => PowerOf(i)
    case PairAt(i, j) => Sum(PowerOf(i), PowerOf(j))
    case BurstAt(start, length) => Ones(start, length)
  }

  lemma DamageOf(e: Block, twoBitData: bool) returns (d: Damage)
    requires Pattern(e, 5, twoBitData)
    ensures Possible(d) && e == ErrorOf(d) && (d.PairAt? ==> twoBitData)
  {
    hide Run, Pair;
    if i :| 0 <= i < 26 && e == Run(i, 1) {
      d := BitAt(i);
    } else if i, j :| twoBitData && 10 <= i < j < 26 && e == Pair(i, j) {
      d := PairAt(i, j);
    } else {
      var start, length :| 2 <= length <= 5 && 0 <= start && start + length <= 10 && e == Run(start, length);
      d := BurstAt(start, length);
    }
  }

  lemma DamageIsPattern(d: Damage, twoBitData: bool)
    requires Possible(d) && (d.PairAt? ==> twoBitData)
    ensures Pattern(ErrorOf(d), 5, twoBitData)
  {
    hide Run, Pair;
  }

  /** The syndrome of every kind of damage, as a number. */
  lemma DamageShown(d: Damage)
    requires Possible(d)
    ensures Num(Syndrome(ErrorOf(d)), 0) == Shown(d)
  {
    hide Syndrome, Run, Pair, Num, Push, PowerOf, Sum, Single;
    match d
    case BitAt(i) =>
      BitSyndrome(i);
      SingleNumber(i);
    case PairAt(i, j) =>
      PairSyndrome(i, j);
      SingleNumber(i);
      SingleNumber(j);
      NumSum(Single(i), Single(j), 0);
    case BurstAt(start, length) =>
      BurstSyndrome(start, length);
      NumBits(Syndrome(Run(start, length)));
  }

  /** Two data bits nine apart: bits i and i + 9, which look like bit i - 10. */
  predicate NineApart(d: Damage) {
    d.PairAt? && d.j == d.i + 9
  }

  /** The only two patterns that look alike are such a pair and its bit. */
  lemma LookAlike(d: Damage, f: Damage)
    requires Possible(d) && Possible(f) && d != f && Syndrome(ErrorOf(d)) == Syndrome(ErrorOf(f))
    ensures (NineApart(d) && f == BitAt(d.i - 10)) || (NineApart(f) && d == BitAt(f.i - 10))
  {
    hide Syndrome, PowerOf, Sum, Ones, ErrorOf;
    DamageShown(d);
    DamageShown(f);
    match (d, f)
    case (BitAt(i), BitAt(k)) => BitsDiffer(i, k);
    case (BitAt(k), PairAt(i, j)) => PairAsBit(i, j, k);
    case (PairAt(i, j), BitAt(k)) => PairAsBit(i, j, k);
    case (PairAt(i, j), PairAt(k, l)) => PairsDiffer(i, j, k, l);
    case (BitAt(i), BurstAt(start, length)) => BitIsNoBurst(i, start, length);
    case (BurstAt(start, length), BitAt(i)) => BitIsNoBurst(i, start, length);
    case (PairAt(i, j), BurstAt(start, length)) => PairIsNoBurst(i, j, start, length);
    case (BurstAt(start, length), PairAt(i, j)) => PairIsNoBurst(i, j, start, length);
    case (BurstAt(start, length), BurstAt(start', length')) => BurstsDiffer(start, length, start', length');
  }

  lemma NinePairIsBit(i: nat)
    requires 10 <= i && i + 9 < 26
    ensures Syndrome(Pair(i, i + 9)) == Syndrome(Run(i - 10, 1))
  {
    hide Syndrome, Run, Pair, PowerOf, Sum, Num;
    DamageShown(PairAt(i, i + 9));
    DamageShown(BitAt(i - 10));
    PairAsBit(i, i + 9, i - 10);
    SameNumber(Syndrome(Pair(i, i + 9)), Syndrome(Run(i - 10, 1)));
  }

  /** No pattern leaves the syndrome zero. */
  lemma DamageShows(d: Damage)
    requires Possible(d)
    ensures Syndrome(ErrorOf(d)) != NO_ERROR
  {
    hide Syndrome, ErrorOf, Num;
    DamageShown(d);
    NothingShown();
    match d
    case BitAt(i) => SomethingShown(i, 0, 2);
    case PairAt(i, j) => PairShown(i, j);
    case BurstAt(start, length) => SomethingShown(0, start, length);
  }

  lemma NothingShown()
    ensures Num(NO_ERROR, 0) == 0
  {
    hide Num;
    NumBits(NO_ERROR);
  }

  lemma SomethingShown(i: nat, start: nat, length: nat)
    requires i < 26 && 2 <= length <= 5 && start + length <= 10
    ensures PowerOf(i) != 0 && Ones(start, length) != 0
  {
  }

  lemma PairShown(i: nat, j: nat)
    requires 10 <= i < j < 26
    ensures Sum(PowerOf(i), PowerOf(j)) != 0
  {
    hide PowerOf;
    if Sum(PowerOf(i), PowerOf(j)) == 0 {
      SumZero(PowerOf(i), PowerOf(j));
      BitsDiffer(i, j);
    }
  }

  lemma SumZero(v: bv10, w: bv10)
    requires Sum(v, w) == 0
    ensures v == w
  {
  }

  // ---------------------------------------------------------------- entries of the tables

  /** The entry under the syndrome of a listed pattern is that pattern, except that a pair of
      data bits nine apart finds the entry of the bit it looks like. */
  lemma EntryOf(d: Damage, twoBitData: bool)
    requires Possible(d) && (d.PairAt? ==> twoBitData)
    ensures Syndrome(ErrorOf(d)) in Lookup(twoBitData)
    ensures Lookup(twoBitData)[Syndrome(ErrorOf(d))] == if NineApart(d) then Run(d.i - 10, 1) else ErrorOf(d)
  {
    hide Syndrome, Pattern, Listed, TableOf, Run, Pair;
    var table := Lookup(twoBitData);
    TableBuilt(5, twoBitData);
    DamageIsPattern(d, twoBitData);
    if NineApart(d) {
      NinePairIsBit(d.i);
    } else {
      var f := DamageOf(table[Syndrome(ErrorOf(d))], twoBitData);
      if f != d {
        LookAlike(d, f);
        assert d == BitAt(f.i - 10);
      }
    }
  }

  /** A syndrome in a table is that of a listed pattern, its entry. */
  lemma EntryFrom(s: Syn, twoBitData: bool) returns (d: Damage)
    requires s in Lookup(twoBitData)
    ensures Possible(d) && (d.PairAt? ==> twoBitData)
    ensures Syndrome(ErrorOf(d)) == s && Lookup(twoBitData)[s] == ErrorOf(d)
  {
    hide Syndrome, Pattern, Listed, TableOf, ErrorOf;
    TableBuilt(5, twoBitData);
    d := DamageOf(Lookup(twoBitData)[s], twoBitData);
  }

  lemma ErrorsDiffer(d: Damage)
    requires Possible(d) && NineApart(d)
    ensures DataOf(Run(d.i - 10, 1)) != DataOf(ErrorOf(d))
  {
    assert !Run(d.i - 10, 1)[d.j] && ErrorOf(d)[d.j];
    assert DataOf(ErrorOf(d))[d.j - 10] == ErrorOf(d)[d.j];
    assert DataOf(Run(d.i - 10, 1))[d.j - 10] == Run(d.i - 10, 1)[d.j];
  }

  // ---------------------------------------------------------------- offsets A, B, C and D

  lemma DataRepaired(c: Block, e: Block, t: Block)
    ensures DataOf(Xor(Xor(c, e), t)) == DataOf(c) <==> DataOf(t) == DataOf(e)
  {
    var d := Xor(Xor(c, e), t);
    if DataOf(d) == DataOf(c) {
      forall i | 0 <= i < 16 ensures DataOf(t)[i] == DataOf(e)[i] {
        assert DataOf(d)[i] == d[10 + i] && DataOf(c)[i] == c[10 + i];
      }
      assert DataOf(t) == DataOf(e);
    }
    if DataOf(t) == DataOf(e) {
      forall i | 0 <= i < 16 ensures DataOf(d)[i] == DataOf(c)[i] {
        assert DataOf(t)[i] == t[10 + i] && DataOf(e)[i] == e[10 + i];
      }
      assert DataOf(d) == DataOf(c);
    }
  }

  /** What is delivered when the first offset tried is the one that was sent. */
  lemma FirstOffset(c: Block, e: Block, position: nat, table: Table)
    requires position < 4 && Syndrome(c) == Offsets(position)[0] && Syndrome(e) in table && Syndrome(e) != NO_ERROR
    ensures Verified(Xor(c, e), position, table) == (DataOf(Xor(Xor(c, e), table[Syndrome(e)])), true)
  {
    hide Syndrome, OffsetA, OffsetB, OffsetC, OffsetC2, OffsetD;
    ErrorSyndrome(c, e, Offsets(position)[0]);
  }

  /** Completeness, and where it ends. A word sent with offset A, B, C or D and damaged by any
      listed pattern is always passed as valid; its data are right if and only if the damage is
      not a pair of data bits nine apart. */
  lemma CorrectedExactly(c: Block, d: Damage, position: nat, twoBitData: bool)
    requires position < 4 && Syndrome(c) == Offsets(position)[0]
    requires Possible(d) && (d.PairAt? ==> twoBitData)
    ensures var (data, valid) := Verified(Xor(c, ErrorOf(d)), position, Lookup(twoBitData));
      valid && (data == DataOf(c) <==> !NineApart(d))
  {
    hide Syndrome, Offsets, ErrorOf, Verified, Lookup, Run, DataOf;
    EntryOf(d, twoBitData);
    DamageShows(d);
    var e := ErrorOf(d);
    FirstOffset(c, e, position, Lookup(twoBitData));
    DataRepaired(c, e, Lookup(twoBitData)[Syndrome(e)]);
    if NineApart(d) {
      ErrorsDiffer(d);
    }
  }

  /** Undamaged words are delivered as they are. */
  lemma Undamaged(c: Block, position: nat, table: Table)
    requires position < 4 && Syndrome(c) == Offsets(position)[0]
    ensures Verified(c, position, table) == (DataOf(c), true)
  {
    hide Syndrome, OffsetA, OffsetB, OffsetC, OffsetC2, OffsetD;
    XorSelf(Syndrome(c), Syndrome(c));
    NothingLeft(Syndrome(c));
  }

  lemma NothingLeft(s: Syn)
    ensures Xor(s, s) == NO_ERROR
  {
  }

  /** Any single wrong bit is corrected, with either table. */
  lemma CorrectsAnyBit(c: Block, i: nat, position: nat, twoBitData: bool)
    requires position < 4 && Syndrome(c) == Offsets(position)[0] && i < 26
    ensures Verified(Xor(c, Run(i, 1)), position, Lookup(twoBitData)) == (DataOf(c), true)
  {
    hide Syndrome, Offsets, Verified, Lookup, Run, DataOf;
    CorrectedExactly(c, BitAt(i), position, twoBitData);
  }

  /** Any burst of two to five check bits is corrected, with either table. */
  lemma CorrectsAnyBurst(c: Block, start: nat, length: nat, position: nat, twoBitData: bool)
    requires position < 4 && Syndrome(c) == Offsets(position)[0] && 2 <= length <= 5 && start + length <= 10
    ensures Verified(Xor(c, Run(start, length)), position, Lookup(twoBitData)) == (DataOf(c), true)
  {
    hide Syndrome, Offsets, Verified, Lookup, Run, DataOf;
    CorrectedExactly(c, BurstAt(start, length), position, twoBitData);
  }

  /** Two wrong data bits are corrected, with the larger table, if and only if they are not nine
      apart. */
  lemma PairsCorrectedExactly(c: Block, i: nat, j: nat, position: nat)
    requires position < 4 && Syndrome(c) == Offsets(position)[0] && 10 <= i < j < 26
    ensures Verified(Xor(c, Pair(i, j)), position, Lookup(true)) == (DataOf(c), true) <==> j - i != 9
  {
    hide Syndrome, Offsets, Verified, Lookup, Pair, DataOf;
    CorrectedExactly(c, PairAt(i, j), position, true);
  }

  /** Concretely: bits 10 and 19 wrong look like bit 0 wrong, and the block is passed as valid
      with both data bits still wrong. */
  lemma PairMisreadWitness(c: Block, position: nat)
    requires position < 4 && Syndrome(c) == Offsets(position)[0]
    ensures Verified(Xor(c, Pair(10, 19)), position, Lookup(true)) == (DataOf(Xor(c, Pair(10, 19))), true)
    ensures DataOf(Xor(c, Pair(10, 19))) != DataOf(c)
  {
    hide Syndrome, Offsets, Verified, Lookup;
    var d := PairAt(10, 19);
    EntryOf(d, true);
    DamageShows(d);
    FirstOffset(c, Pair(10, 19), position, Lookup(true));
    assert DataOf(Xor(Xor(c, Pair(10, 19)), Run(0, 1))) == DataOf(Xor(c, Pair(10, 19)));
    assert DataOf(Xor(c, Pair(10, 19)))[0] == Xor(c, Pair(10, 19))[10];
    assert DataOf(c)[0] == c[10];
  }

  // ---------------------------------------------------------------- offset C'

  lemma BitsOfC()
    ensures OffsetC() == [false, false, false, true, false, true, true, false, true, false]
  {
    hide Unpack;
    UnpackBit(0x168, 10, 0);
    UnpackBit(0x168, 10, 1);
    UnpackBit(0x168, 10, 2);
    UnpackBit(0x168, 10, 3);
    UnpackBit(0x168, 10, 4);
    UnpackBit(0x168, 10, 5);
    UnpackBit(0x168, 10, 6);
    UnpackBit(0x168, 10, 7);
    UnpackBit(0x168, 10, 8);
    UnpackBit(0x168, 10, 9);
  }

  lemma BitsOfC2()
    ensures OffsetC2() == [false, false, false, false, true, false, true, false, true, true]
  {
    hide Unpack;
    UnpackBit(0x350, 10, 0);
    UnpackBit(0x350, 10, 1);
    UnpackBit(0x350, 10, 2);
    UnpackBit(0x350, 10, 3);
    UnpackBit(0x350, 10, 4);
    UnpackBit(0x350, 10, 5);
    UnpackBit(0x350, 10, 6);
    UnpackBit(0x350, 10, 7);
    UnpackBit(0x350, 10, 8);
    UnpackBit(0x350, 10, 9);
  }

  /** What separates the two offsets of position 2. */
  function Apart(): Syn {
    Xor(OffsetC(), OffsetC2())
  }

  lemma ApartNumber()
    ensures Num(Apart(), 0) == 0x238
  {
    hide Num, OffsetC, OffsetC2;
    BitsOfC();
    BitsOfC2();
    NumBits(Apart());
  }

  /** Offset C makes of damage d to a word sent with offset C' what has this number. */
  lemma SeenNumber(d: Damage)
    requires Possible(d)
    ensures Num(Xor(Apart(), Syndrome(ErrorOf(d))), 0) == Sum(0x238, Shown(d))
  {
    hide Syndrome, ErrorOf, Num, Apart, Sum, Shown;
    ApartNumber();
    DamageShown(d);
    NumSum(Apart(), Syndrome(ErrorOf(d)), 0);
  }

  /** No listed pattern takes a word sent with offset C' for one sent with offset C. */
  lemma DamageIsNotApart(d: Damage)
    requires Possible(d)
    ensures Syndrome(ErrorOf(d)) != Apart()
  {
    hide Syndrome, ErrorOf, Num, Apart, Sum, PowerOf, Ones;
    ApartNumber();
    DamageShown(d);
    match d
    case BitAt(i) => OffsetsDifferAsNoBit(i);
    case PairAt(i, j) => OffsetsDifferAsNoPattern(i, j, 0, 2);
    case BurstAt(start, length) => OffsetsDifferAsNoPattern(10, 11, start, length);
  }

  /** An undamaged word sent with offset C' is delivered as it is. */
  lemma AlternateUndamaged(c: Block, twoBitData: bool)
    requires Syndrome(c) == OffsetC2()
    ensures Verified(c, 2, Lookup(twoBitData)) == (DataOf(c), true)
  {
    hide Syndrome, OffsetA, OffsetB, OffsetC, OffsetC2, OffsetD, Lookup, Apart, ErrorOf;
    var table := Lookup(twoBitData);
    ApartIs(c);
    if Apart() in table {
      var d := EntryFrom(Apart(), twoBitData);
      DamageIsNotApart(d);
    }
    NothingLeft(OffsetC2());
    assert Offsets(2)[1..] == [OffsetC2()];
    assert VerifyAgainst(c, Offsets(2), table) == VerifyAgainst(c, [OffsetC2()], table);
  }

  lemma ApartIs(c: Block)
    requires Syndrome(c) == OffsetC2()
    ensures Xor(Syndrome(c), OffsetC()) == Apart() && Apart() != NO_ERROR
  {
    hide Syndrome, OffsetC, OffsetC2;
    BitsOfC();
    BitsOfC2();
    assert Apart()[3];
  }

  /** Position 2 tries offset C first. A word sent with offset C' and damaged by a listed pattern
      is always passed as valid; its data are right if and only if what the damage looks like
      from offset C has no entry and the damage is not a pair nine apart, or has an entry that
      repairs the data bits all the same. */
  lemma AlternateOffsetExactly(c: Block, d: Damage, twoBitData: bool)
    requires Syndrome(c) == OffsetC2() && Possible(d) && (d.PairAt? ==> twoBitData)
    ensures var table := Lookup(twoBitData);
      var seen := Xor(Apart(), Syndrome(ErrorOf(d)));
      var (data, valid) := Verified(Xor(c, ErrorOf(d)), 2, table);
      valid && (data == DataOf(c) <==>
        if seen in table then DataOf(table[seen]) == DataOf(ErrorOf(d)) else !NineApart(d))
  {
    hide Syndrome, OffsetA, OffsetB, OffsetC, OffsetC2, OffsetD, Lookup, ErrorOf, DataOf, Run, NineApart;
    var table, e := Lookup(twoBitData), ErrorOf(d);
    var r: Block := Xor(c, e);
    var seen := Xor(Apart(), Syndrome(e));
    SyndromeXor(c, e);
    assert Xor(Syndrome(r), OffsetC()) == seen;
    DamageIsNotApart(d);
    NonzeroSum(Apart(), Syndrome(e));
    if seen in table {
      DataRepaired(c, e, table[seen]);
    } else {
      EntryOf(d, twoBitData);
      DamageShows(d);
      ErrorSyndrome(c, e, OffsetC2());
      assert Offsets(2)[1..] == [OffsetC2()];
      assert VerifyAgainst(r, Offsets(2), table) == VerifyAgainst(r, [OffsetC2()], table);
      DataRepaired(c, e, table[Syndrome(e)]);
      if NineApart(d) {
        NineDiffers(d);
      }
    }
  }

  lemma NineDiffers(d: Damage)
    requires Possible(d) && NineApart(d)
    ensures DataOf(Run(d.i - 10, 1)) != DataOf(ErrorOf(d))
  {
    hide DataOf, Run, ErrorOf;
    ErrorsDiffer(d);
  }

  lemma BitSeenAsBit(k: nat, i: nat)
    requires k < 26 && i < 26
    ensures Sum(0x238, PowerOf(k)) != PowerOf(i)
  {
  }

  /** The data bits that are misread from offset C when pairs are corrected too. */
  predicate MisreadAsPair(k: nat) {
    k == 10 || k == 12 || k == 18 || k == 19 || k == 20 || k == 23 || k == 24
  }

  lemma BitSeenAsPair(k: nat, i: nat, j: nat)
    requires k < 26 && 10 <= i < j < 26 && Sum(0x238, PowerOf(k)) == Sum(PowerOf(i), PowerOf(j))
    ensures MisreadAsPair(k)
  {
  }

  lemma BitSeenAsBurst(k: nat, start: nat, length: nat)
    requires k < 26 && 2 <= length <= 5 && start + length <= 10 && Sum(0x238, PowerOf(k)) == Ones(start, length)
    ensures k == 9 || k == 19
  {
  }

  /** Which data bits are misread from offset C. */
  predicate Misread(k: nat, twoBitData: bool) {
    k == 19 || (twoBitData && MisreadAsPair(k))
  }

  /** What a misread bit is taken for. */
  function TakenFor(k: nat): (d: Damage)
    requires MisreadAsPair(k)
    ensures Possible(d) && (d.PairAt? ==> k != 19)
  {
    if k == 10 then PairAt(12, 18)
    else if k == 12 then PairAt(10, 18)
    else if k == 18 then PairAt(10, 12)
    else if k == 20 then PairAt(23, 24)
    else if k == 23 then PairAt(20, 24)
    else if k == 24 then PairAt(20, 23)
    else BurstAt(7, 3)
  }

  lemma TakenForShown(k: nat)
    requires MisreadAsPair(k)
    ensures Shown(TakenFor(k)) == Sum(0x238, PowerOf(k))
  {
  }

  /** A single wrong bit in a word sent with offset C': misread exactly in these places. */
  lemma AlternateBitExactly(c: Block, k: nat, twoBitData: bool)
    requires Syndrome(c) == OffsetC2() && k < 26
    ensures Verified(Xor(c, Run(k, 1)), 2, Lookup(twoBitData)) == (DataOf(c), true) <==> !Misread(k, twoBitData)
  {
    hide Syndrome, OffsetC2, Lookup, DataOf, Verified, ErrorOf, Apart, MisreadAsPair, Run;
    var d := BitAt(k);
    var seen := Xor(Apart(), Syndrome(ErrorOf(d)));
    AlternateOffsetExactly(c, d, twoBitData);
    ErrorOfBit(k);
    if Misread(k, twoBitData) {
      SeenIsListed(k, twoBitData);
    }
    if seen in Lookup(twoBitData) {
      SeenAs(k, twoBitData);
    }
  }

  /** In particular bit 19, with either table: valid flag, wrong data. */
  lemma AlternateOffsetWitness(c: Block, twoBitData: bool)
    requires Syndrome(c) == OffsetC2()
    ensures Verified(Xor(c, Run(19, 1)), 2, Lookup(twoBitData)).1
    ensures Verified(Xor(c, Run(19, 1)), 2, Lookup(twoBitData)).0 != DataOf(c)
  {
    hide Syndrome, OffsetC2, Lookup, DataOf, Verified, ErrorOf, Apart, Run;
    AlternateOffsetExactly(c, BitAt(19), twoBitData);
    AlternateBitExactly(c, 19, twoBitData);
    ErrorOfBit(19);
  }

  lemma ErrorOfBit(k: nat)
    requires k < 26
    ensures ErrorOf(BitAt(k)) == Run(k, 1)
  {
  }

  lemma SeenIsListed(k: nat, twoBitData: bool)
    requires k < 26 && Misread(k, twoBitData)
    ensures Xor(Apart(), Syndrome(ErrorOf(BitAt(k)))) in Lookup(twoBitData)
  {
    hide Syndrome, Lookup, ErrorOf, Apart, Num, Sum, Shown, TakenFor;
    var d := BitAt(k);
    assert Shown(d) == PowerOf(k) by { ShownBit(k); }
    SeenNumber(d);
    TakenForShown(k);
    DamageShown(TakenFor(k));
    SameNumber(Xor(Apart(), Syndrome(ErrorOf(d))), Syndrome(ErrorOf(TakenFor(k))));
    EntryOf(TakenFor(k), twoBitData);
  }

  lemma ShownBit(k: nat)
    requires k < 26
    ensures Shown(BitAt(k)) == PowerOf(k)
  {
  }

  /** If the misreading has an entry, its data bits are those of the bit that is wrong exactly if
      that is a bit that is not misread. */
  lemma SeenAs(k: nat, twoBitData: bool)
    requires k < 26 && Xor(Apart(), Syndrome(ErrorOf(BitAt(k)))) in Lookup(twoBitData)
    ensures var table := Lookup(twoBitData);
      DataOf(table[Xor(Apart(), Syndrome(ErrorOf(BitAt(k))))]) == DataOf(ErrorOf(BitAt(k))) <==> !Misread(k, twoBitData)
  {
    hide Syndrome, Lookup, ErrorOf, Apart, Num, Sum, PowerOf, Ones, MisreadAsPair, DataOf;
    var d := BitAt(k);
    var f := EntryFrom(Xor(Apart(), Syndrome(ErrorOf(d))), twoBitData);
    SeenNumber(d);
    DamageShown(f);
    match f
    case BitAt(i) => BitSeenAsBit(k, i);
    case PairAt(i, j) =>
      BitSeenAsPair(k, i, j);
      PairAndBit(i, j, k);
    case BurstAt(start, length) =>
      BitSeenAsBurst(k, start, length);
      BurstAndBit(start, length, k);
      assert 19 != 9;
      NineIsNotMisread();
  }

  lemma NineIsNotMisread()
    ensures !MisreadAsPair(9)
  {
  }

  lemma PairAndBit(i: nat, j: nat, k: nat)
    requires 10 <= i < j < 26 && k < 26
    ensures DataOf(ErrorOf(PairAt(i, j))) != DataOf(ErrorOf(BitAt(k)))
  {
    var m := if i == k then j else i;
    assert DataOf(Pair(i, j))[m - 10] == Pair(i, j)[m];
    assert DataOf(Run(k, 1))[m - 10] == Run(k, 1)[m];
  }

  lemma BurstAndBit(start: nat, length: nat, k: nat)
    requires start + length <= 10 && 2 <= length <= 5 && k < 26
    ensures DataOf(ErrorOf(BurstAt(start, length))) == DataOf(ErrorOf(BitAt(k))) <==> k < 10
  {
    if k >= 10 {
      assert DataOf(Run(start, length))[k - 10] == Run(start, length)[k];
      assert DataOf(Run(k, 1))[k - 10] == Run(k, 1)[k];
    }
  }
}
