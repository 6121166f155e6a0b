/** Which listed errors in a word sent with offset C' are misread from offset C, place by place. */
module RdsAlternate {
  import opened Words
  import opened RdsSyndrome
  import opened RdsBlock
  import opened RdsCorrection

  // ---------------------------------------------------------------- pairs of data bits

  /** The pairs that look from offset C like other damage. */
  predicate PairSeen(i: nat, j: nat) {
    || (i == 10 && (j == 12 || j == 14 || j == 18))
    || (i == 11 && (j == 12 || j == 19 || j == 23))
    || (i == 12 && (j == 18 || j == 19 || j == 23))
    || (i == 14 && j == 25)
    || (i == 18 && j == 24)
    || (i == 19 && (j == 20 || j == 23))
    || (i == 20 && (j == 23 || j == 24))
    || (i == 23 && (j == 24 || j == 25))
  }

  lemma PairSeenAsBit(i: nat, j: nat, k: nat)
    requires 10 <= i < j < 26 && k < 26 && Sum(0x238, Sum(PowerOf(i), PowerOf(j))) == PowerOf(k)
    ensures PairSeen(i, j)
  {
  }

  lemma PairSeenAsBurst(i: nat, j: nat, start: nat, length: nat)
    requires 10 <= i < j < 26 && 2 <= length <= 5 && start + length <= 10
    requires Sum(0x238, Sum(PowerOf(i), PowerOf(j))) == Ones(start, length)
    ensures PairSeen(i, j)
  {
  }

  lemma LowPairSeenAsPair(i: nat, j: nat, k: nat, l: nat)
    requires 10 <= i <= 12 && i < j < 26 && i <= k < l < 26
    requires Sum(0x238, Sum(PowerOf(i), PowerOf(j))) == Sum(PowerOf(k), PowerOf(l))
    ensures PairSeen(i, j) && PairSeen(k, l)
  {
  }

  lemma HighPairSeenAsPair(i: nat, j: nat, k: nat, l: nat)
    requires 13 <= i < j < 26 && i <= k < l < 26
    ensures Sum(0x238, Sum(PowerOf(i), PowerOf(j))) != Sum(PowerOf(k), PowerOf(l))
  {
  }

  /** What such a pair is taken for. */
  function PairTakenFor(i: nat, j: nat): (d: Damage)
    requires PairSeen(i, j)
    ensures Possible(d)
  {
    if i == 10 && j == 12 then BitAt(18)
    else if i == 10 && j == 14 then BurstAt(1, 5)
    else if i == 10 && j == 18 then BitAt(12)
    else if i == 11 && j == 12 then PairAt(19, 23)
    else if i == 11 && j == 19 then PairAt(12, 23)
    else if i == 11 && j == 23 then PairAt(12, 19)
    else if i == 12 && j == 18 then BitAt(10)
    else if i == 12 && j == 19 then PairAt(11, 23)
    else if i == 12 && j == 23 then PairAt(11, 19)
    else if i == 14 && j == 25 then BurstAt(4, 5)
    else if i == 18 && j == 24 then BurstAt(0, 2)
    else if i == 19 && j == 20 then BurstAt(4, 4)
    else if i == 19 && j == 23 then PairAt(11, 12)
    else if i == 20 && j == 23 then BitAt(24)
    else if i == 20 && j == 24 then BitAt(23)
    else if i == 23 && j == 24 then BitAt(20)
    else BurstAt(5, 4)
  }

  lemma PairTakenForShown(i: nat, j: nat)
    requires PairSeen(i, j)
    ensures Shown(PairTakenFor(i, j)) == Sum(0x238, Sum(PowerOf(i), PowerOf(j)))
  {
    hide Shown, PairTakenFor, Sum, PowerOf;
    if i <= 11 {
      LowPairTakenFor(i, j);
    } else if i <= 14 {
      MiddlePairTakenFor(i, j);
    } else {
      HighPairTakenFor(i, j);
    }
  }

  lemma LowPairTakenFor(i: nat, j: nat)
    requires PairSeen(i, j) && i <= 11
    ensures Shown(PairTakenFor(i, j)) == Sum(0x238, Sum(PowerOf(i), PowerOf(j)))
  {
  }

  lemma MiddlePairTakenFor(i: nat, j: nat)
    requires PairSeen(i, j) && 12 <= i <= 14
    ensures Shown(PairTakenFor(i, j)) == Sum(0x238, Sum(PowerOf(i), PowerOf(j)))
  {
  }

  lemma HighPairTakenFor(i: nat, j: nat)
    requires PairSeen(i, j) && i >= 15
    ensures Shown(PairTakenFor(i, j)) == Sum(0x238, Sum(PowerOf(i), PowerOf(j)))
  {
  }

  // ---------------------------------------------------------------- bursts of check bits

  /** The bursts that look from offset C like a pair of data bits. */
  predicate BurstSeen(start: nat, length: nat) {
    || (length == 2 && start == 0)
    || (length == 4 && (start == 4 || start == 5))
    || (length == 5 && (start == 1 || start == 4))
  }

  lemma BurstSeenAsBit(start: nat, length: nat, k: nat)
    requires 2 <= length <= 5 && start + length <= 10 && k < 26
    ensures Sum(0x238, Ones(start, length)) == PowerOf(k) <==>
      length == 3 && ((start == 3 && k == 9) || (start == 7 && k == 19))
  {
  }

  lemma BurstSeenAsPair(start: nat, length: nat, i: nat, j: nat)
    requires 2 <= length <= 5 && start + length <= 10 && 10 <= i < j < 26
    requires Sum(0x238, Ones(start, length)) == Sum(PowerOf(i), PowerOf(j))
    ensures BurstSeen(start, length)
  {
  }

  lemma BurstSeenAsBurst(start: nat, length: nat, start': nat, length': nat)
    requires 2 <= length <= 5 && start + length <= 10 && 2 <= length' <= 5 && start' + length' <= 10
    ensures Sum(0x238, Ones(start, length)) != Ones(start', length')
  {
  }

  function BurstTakenFor(start: nat, length: nat): (d: Damage)
    requires BurstSeen(start, length)
    ensures Possible(d) && d.PairAt?
  {
    if length == 2 then PairAt(18, 24)
    else if length == 4 then (if start == 4 then PairAt(19, 20) else PairAt(23, 25))
    else (if start == 1 then PairAt(10, 14) else PairAt(14, 25))
  }

  lemma BurstTakenForShown(start: nat, length: nat)
    requires BurstSeen(start, length)
    ensures Shown(BurstTakenFor(start, length)) == Sum(0x238, Ones(start, length))
  {
  }

  // ---------------------------------------------------------------- what is delivered

  /** What offset C makes of damage. */
  function SeenOf(d: Damage): Syn
    requires Possible(d)
  {
    Xor(Apart(), Syndrome(ErrorOf(d)))
  }

  /** Damage that looks like a listed pattern has an entry. */
  lemma SeenHasEntry(d: Damage, f: Damage, twoBitData: bool)
    requires Possible(d) && Possible(f) && (f.PairAt? ==> twoBitData) && Shown(f) == Sum(0x238, Shown(d))
    ensures SeenOf(d) in Lookup(twoBitData)
  {
    hide Syndrome, Lookup, ErrorOf, Apart, Num, Sum, Shown;
    SeenNumber(d);
    DamageShown(f);
    SameNumber(SeenOf(d), Syndrome(ErrorOf(f)));
    EntryOf(f, twoBitData);
  }

  /** And an entry is a listed pattern that looks like it. */
  lemma EntrySeen(d: Damage, twoBitData: bool) returns (f: Damage)
    requires Possible(d) && SeenOf(d) in Lookup(twoBitData)
    ensures Possible(f) && (f.PairAt? ==> twoBitData) && Shown(f) == Sum(0x238, Shown(d))
    ensures Lookup(twoBitData)[SeenOf(d)] == ErrorOf(f)
  {
    hide Syndrome, Lookup, ErrorOf, Apart, Num, Sum, Shown;
    f := EntryFrom(SeenOf(d), twoBitData);
    SeenNumber(d);
    DamageShown(f);
  }

  lemma NothingSeenAsItself(v: bv10)
    ensures Sum(0x238, v) != v
  {
  }

  lemma PairsData(i: nat, j: nat, k: nat, l: nat)
    requires 10 <= i < j < 26 && 10 <= k < l < 26 && !(i == k && j == l)
    ensures DataOf(ErrorOf(PairAt(i, j))) != DataOf(ErrorOf(PairAt(k, l)))
  {
    var m := if i != k && i != l then i else if j != k && j != l then j else if k != i && k != j then k else l;
    assert DataOf(Pair(i, j))[m - 10] == Pair(i, j)[m];
    assert DataOf(Pair(k, l))[m - 10] == Pair(k, l)[m];
  }

  lemma PairAndBurst(i: nat, j: nat, start: nat, length: nat)
    requires 10 <= i < j < 26 && 2 <= length <= 5 && start + length <= 10
    ensures DataOf(ErrorOf(PairAt(i, j))) != DataOf(ErrorOf(BurstAt(start, length)))
  {
    assert DataOf(Pair(i, j))[i - 10] == Pair(i, j)[i];
    assert DataOf(Run(start, length))[i - 10] == Run(start, length)[i];
  }

  /** Every listed error that is misread in a word sent with offset C'. */
  predicate MisreadDamage(d: Damage, twoBitData: bool) {
    match d
    case BitAt(k) => Misread(k, twoBitData)
    case PairAt(i, j) => j == i + 9 || PairSeen(i, j)
    case BurstAt(start, length) => (start == 7 && length == 3) || (twoBitData && BurstSeen(start, length))
  }

  /** If a pair has an entry from offset C, that repairs other data bits. */
  lemma PairEntryWrong(i: nat, j: nat)
    requires 10 <= i < j < 26 && SeenOf(PairAt(i, j)) in Lookup(true)
    ensures PairSeen(i, j)
    ensures DataOf(Lookup(true)[SeenOf(PairAt(i, j))]) != DataOf(ErrorOf(PairAt(i, j)))
  {
    hide Lookup, SeenOf, ErrorOf, DataOf, PowerOf, Ones, Sum, PairSeen;
    var f := EntrySeen(PairAt(i, j), true);
    match f
    case BitAt(k) =>
      PairSeenAsBit(i, j, k);
      PairAndBit(i, j, k);
    case BurstAt(start, length) =>
      PairSeenAsBurst(i, j, start, length);
      PairAndBurst(i, j, start, length);
    case PairAt(k, l) =>
      NothingSeenAsItself(Sum(PowerOf(i), PowerOf(j)));
      PairsData(i, j, k, l);
      PairSeenAsPair(i, j, k, l);
  }

  lemma PairSeenAsPair(i: nat, j: nat, k: nat, l: nat)
    requires 10 <= i < j < 26 && 10 <= k < l < 26
    requires Sum(0x238, Sum(PowerOf(i), PowerOf(j))) == Sum(PowerOf(k), PowerOf(l))
    ensures PairSeen(i, j)
  {
    hide PowerOf, Sum, PairSeen;
    SeenBothWays(Sum(PowerOf(i), PowerOf(j)), Sum(PowerOf(k), PowerOf(l)));
    if i <= k && i <= 12 {
      LowPairSeenAsPair(i, j, k, l);
    } else if i <= k {
      HighPairSeenAsPair(i, j, k, l);
    } else if k <= 12 {
      LowPairSeenAsPair(k, l, i, j);
    } else {
      HighPairSeenAsPair(k, l, i, j);
    }
  }

  lemma SeenBothWays(v: bv10, w: bv10)
    requires Sum(0x238, v) == w
    ensures Sum(0x238, w) == v
  {
  }

  /** If a burst has an entry from offset C, that leaves the data alone exactly if it is not misread. */
  lemma BurstEntry(start: nat, length: nat, twoBitData: bool)
    requires 2 <= length <= 5 && start + length <= 10 && SeenOf(BurstAt(start, length)) in Lookup(twoBitData)
    ensures DataOf(Lookup(twoBitData)[SeenOf(BurstAt(start, length))]) == DataOf(ErrorOf(BurstAt(start, length)))
      <==> !MisreadDamage(BurstAt(start, length), twoBitData)
  {
    hide Lookup, SeenOf, ErrorOf, DataOf, PowerOf, Ones, Sum;
    var f := EntrySeen(BurstAt(start, length), twoBitData);
    match f
    case BitAt(k) =>
      BurstSeenAsBit(start, length, k);
      BurstAndBit(start, length, k);
    case BurstAt(start', length') => BurstSeenAsBurst(start, length, start', length');
    case PairAt(i, j) =>
      BurstSeenAsPair(start, length, i, j);
      PairAndBurst(i, j, start, length);
  }

  lemma MisreadHasEntry(d: Damage, twoBitData: bool)
    requires Possible(d) && !d.BitAt? && (d.PairAt? ==> twoBitData && !NineApart(d)) && MisreadDamage(d, twoBitData)
    ensures SeenOf(d) in Lookup(twoBitData)
  {
    hide Lookup, SeenOf, PowerOf, Ones, Sum, PairSeen, BurstSeen, PairTakenFor, BurstTakenFor;
    match d
    case PairAt(i, j) =>
      PairTakenForShown(i, j);
      SeenHasEntry(d, PairTakenFor(i, j), true);
    case BurstAt(start, length) =>
      if start == 7 && length == 3 {
        BurstSeenAsBit(7, 3, 19);
        SeenHasEntry(d, BitAt(19), twoBitData);
      } else {
        BurstTakenForShown(start, length);
        SeenHasEntry(d, BurstTakenFor(start, length), true);
      }
  }

  /** Offset C', place by place. A word sent with it and damaged by any listed error is delivered if
      and only if the error is not one of those named. */
  lemma AlternateExactly(c: Block, d: Damage, twoBitData: bool)
    requires Syndrome(c) == OffsetC2() && Possible(d) && (d.PairAt? ==> twoBitData)
    ensures Verified(Xor(c, ErrorOf(d)), 2, Lookup(twoBitData)) == (DataOf(c), true) <==> !MisreadDamage(d, twoBitData)
  {
    hide Syndrome, OffsetC2, Lookup, DataOf, Verified, ErrorOf, Apart, PairSeen, BurstSeen, Misread, Run;
    AlternateOffsetExactly(c, d, twoBitData);
    match d
    case BitAt(k) =>
      AlternateBitExactly(c, k, twoBitData);
      ErrorOfBit(k);
    case PairAt(i, j) =>
      if MisreadDamage(d, twoBitData) && !NineApart(d) {
        MisreadHasEntry(d, twoBitData);
      }
      if SeenOf(d) in Lookup(twoBitData) {
        PairEntryWrong(i, j);
      }
    case BurstAt(start, length) =>
      if MisreadDamage(d, twoBitData) {
        MisreadHasEntry(d, twoBitData);
      }
      if SeenOf(d) in Lookup(twoBitData) {
        BurstEntry(start, length, twoBitData);
      }
  }
}
