/** RDS blocks: the tables of correctable errors, and the verification of a 26-bit block against
    the offset words of its position. */
module RdsBlock {
  import opened Words
  import opened RdsSyndrome

  type Data = d: Bits | |d| == 16 witness seq(16, _ => false)

  // The offset words of blocks A, B, C, C' and D.
  function OffsetA(): Syn { Unpack(0x0FC, 10) }
  function OffsetB(): Syn { Unpack(0x198, 10) }
  function OffsetC(): Syn { Unpack(0x168, 10) }
  function OffsetC2(): Syn { Unpack(0x350, 10) }
  function OffsetD(): Syn { Unpack(0x1B4, 10) }

  // ---------------------------------------------------------------- correctable errors

  /** The patterns a table is built from: any single bit; with twoBitData any two data bits;
      and bursts of two to maxBurst bits inside the checkword. */
  ghost predicate Pattern(e: Block, maxBurst: nat, twoBitData: bool) {
    || (exists i | 0 <= i < 26 :: e == Run(i, 1))
    || (twoBitData && exists i, j | 10 <= i < j < 26 :: e == Pair(i, j))
    || (exists start, length | 2 <= length <= maxBurst && 0 <= start && start + length <= 10 :: e == Run(start, length))
  }

  type Table = map<Syn, Block>

  /** Every entry corrects a listed pattern with that syndrome. */
  ghost predicate Sound(table: Table, maxBurst: nat, twoBitData: bool) {
    forall s | s in table :: Syndrome(table[s]) == s && Pattern(table[s], maxBurst, twoBitData)
  }

  /** An entry is added only for a syndrome that has none. */
  function AddNew(table: Table, e: Block): (t: Table) {
    if Syndrome(e) in table then table else table[Syndrome(e) := e]
  }

  /** The table made from a list of patterns: under each syndrome the first pattern that has it. */
  function TableOf(patterns: seq<Block>): Table {
    if patterns == [] then map[]
    else AddNew(TableOf(patterns[..|patterns| - 1]), patterns[|patterns| - 1])
  }

  /** The patterns in the order they are entered: bits, pairs, bursts. */
  function Listed(maxBurst: nat, twoBitData: bool): seq<Block> {
    Singles(26) + (if twoBitData then PairsBefore(25, 26) else []) + BurstsBefore(maxBurst + 1, 0)
  }

  function Singles(n: nat): (list: seq<Block>)
    requires n <= 26
    ensures |list| == n && forall i :: 0 <= i < n ==> list[i] == Run(i, 1)
  {
    seq(n, i requires 0 <= i < n => Run(i, 1))
  }

  /** The pairs of data bits before (i, j), row by row. */
  function PairsBefore(i: nat, j: nat): seq<Block>
    requires 10 <= i < j <= 26
    decreases i, j
  {
    if j > i + 1 then PairsBefore(i, j - 1) + [Pair(i, j - 1)]
    else if i > 10 then PairsBefore(i - 1, 26)
    else []
  }

  /** Number of places for a burst in the checkword. */
  function Places(length: nat): nat {
    if length <= 10 then 11 - length else 0
  }

  /** The bursts before the given one, by length, then by place. */
  function BurstsBefore(length: nat, start: nat): seq<Block>
    requires start <= Places(length)
    decreases length, start
  {
    if start > 0 then BurstsBefore(length, start - 1) + [Run(start - 1, length)]
    else if length > 2 then BurstsBefore(length - 1, Places(length - 1))
    else []
  }

  method BuildErrorLookup(maxBurst: nat, twoBitData: bool) returns (lookup: Table)
    ensures lookup == TableOf(Listed(maxBurst, twoBitData))
  {
    hide Syndrome, Run, Pair, PairsBefore, BurstsBefore, TableOf;
    lookup := map[];
    NothingListed();
    for bit := 0 to 26
      invariant lookup == TableOf(Singles(bit))
    {
      assert Singles(bit + 1) == Singles(bit) + [Run(bit, 1)];
      TableSnoc(Singles(bit), Run(bit, 1));
      BitNotListed(bit);
      lookup := lookup[Syndrome(Run(bit, 1)) := Run(bit, 1)];
    }
    ghost var listed := Singles(26);
    assert listed + [] == listed;
    if twoBitData {
      lookup := AddPairs(lookup, listed);
      listed := listed + PairsBefore(25, 26);
    }
    var burstLen := 2;
    NoBursts();
    assert listed + [] == listed;
    while burstLen <= maxBurst
      invariant 2 <= burstLen <= (if maxBurst < 2 then 2 else maxBurst + 1)
      invariant lookup == TableOf(listed + BurstsBefore(burstLen, 0))
    {
      lookup := AddBursts(lookup, burstLen, listed);
      burstLen := burstLen + 1;
    }
    NoBursts();
  }

  method AddPairs(table: Table, ghost listed: seq<Block>) returns (lookup: Table)
    requires table == TableOf(listed)
    ensures lookup == TableOf(listed + PairsBefore(25, 26))
  {
    hide Syndrome, Run, Pair, TableOf;
    lookup := table;
    assert listed + PairsBefore(10, 11) == listed;
    for i := 10 to 26
      invariant lookup == TableOf(listed + (if i < 26 then PairsBefore(i, i + 1) else PairsBefore(25, 26)))
    {
      for j := i + 1 to 26
        invariant lookup == TableOf(listed + PairsBefore(i, j))
      {
        assert listed + PairsBefore(i, j + 1) == (listed + PairsBefore(i, j)) + [Pair(i, j)];
        TableSnoc(listed + PairsBefore(i, j), Pair(i, j));
        lookup := AddNew(lookup, Pair(i, j));
      }
    }
  }

  method AddBursts(table: Table, burstLen: nat, ghost listed: seq<Block>) returns (lookup: Table)
    requires burstLen >= 2 && table == TableOf(listed + BurstsBefore(burstLen, 0))
    ensures lookup == TableOf(listed + BurstsBefore(burstLen + 1, 0))
  {
    hide Syndrome, Run, Pair, TableOf;
    lookup := table;
    var b := 0;
    while b < 10 - burstLen + 1
      invariant 0 <= b <= Places(burstLen)
      invariant lookup == TableOf(listed + BurstsBefore(burstLen, b))
    {
      assert listed + BurstsBefore(burstLen, b + 1) == (listed + BurstsBefore(burstLen, b)) + [Run(b, burstLen)];
      TableSnoc(listed + BurstsBefore(burstLen, b), Run(b, burstLen));
      lookup := AddNew(lookup, Run(b, burstLen));
      b := b + 1;
    }
  }

  lemma NothingListed()
    ensures TableOf([]) == map[] && Singles(0) == []
  {
  }

  lemma NoBursts()
    ensures forall length: nat | length <= 2 :: BurstsBefore(length, 0) == []
  {
  }

  lemma TableSnoc(patterns: seq<Block>, e: Block)
    ensures TableOf(patterns + [e]) == AddNew(TableOf(patterns), e)
  {
    assert (patterns + [e])[..|patterns|] == patterns;
  }

  /** The first k whose pattern has a syndrome. */
  ghost predicate FirstWith(patterns: seq<Block>, s: Syn, k: nat) {
    k < |patterns| && Syndrome(patterns[k]) == s && forall m :: 0 <= m < k ==> Syndrome(patterns[m]) != s
  }

  /** What a table holds under a syndrome: nothing if no pattern has it, else the first that has. */
  lemma {:induction false} FirstOwns(patterns: seq<Block>, s: Syn) returns (k: nat)
    ensures s in TableOf(patterns) <==> FirstWith(patterns, s, k)
    ensures s in TableOf(patterns) ==> TableOf(patterns)[s] == patterns[k]
    ensures s !in TableOf(patterns) ==> forall m :: 0 <= m < |patterns| ==> Syndrome(patterns[m]) != s
  {
    hide Syndrome;
    k := 0;
    if patterns != [] {
      var n := |patterns| - 1;
      var rest := patterns[..n];
      k := FirstOwns(rest, s);
      if s !in TableOf(rest) {
        assert forall m :: 0 <= m < n ==> rest[m] == patterns[m];
        k := n;
      }
    }
  }

  /** A pattern whose syndrome no earlier one has is its own entry. */
  lemma OwnEntry(patterns: seq<Block>, k: nat)
    requires k < |patterns| && forall m :: 0 <= m < k ==> Syndrome(patterns[m]) != Syndrome(patterns[k])
    ensures Syndrome(patterns[k]) in TableOf(patterns) && TableOf(patterns)[Syndrome(patterns[k])] == patterns[k]
  {
    hide Syndrome, TableOf;
    var m := FirstOwns(patterns, Syndrome(patterns[k]));
  }

  lemma BitNotListed(bit: nat)
    requires bit < 26
    ensures Syndrome(Run(bit, 1)) !in TableOf(Singles(bit))
  {
    hide Syndrome, TableOf, Run;
    BitSyndromesDistinct(bit);
    var m := FirstOwns(Singles(bit), Syndrome(Run(bit, 1)));
  }

  // ---------------------------------------------------------------- what is listed

  lemma {:induction false} PairListed(i: nat, j: nat, k: nat, l: nat)
    requires 10 <= k < l <= 26 && 10 <= i < j < 26 && (i < k || (i == k && j < l))
    ensures Pair(i, j) in PairsBefore(k, l)
    decreases k, l
  {
    hide Pair;
    if l > k + 1 {
      if !(i == k && j == l - 1) {
        PairListed(i, j, k, l - 1);
      }
    } else {
      PairListed(i, j, k - 1, 26);
    }
  }

  lemma {:induction false} ListedIsPair(e: Block, k: nat, l: nat)
    requires 10 <= k < l <= 26 && e in PairsBefore(k, l)
    ensures exists i, j | 10 <= i < j < 26 :: e == Pair(i, j)
    decreases k, l
  {
    hide Pair;
    if l > k + 1 {
      if e != Pair(k, l - 1) {
        ListedIsPair(e, k, l - 1);
      }
    } else {
      ListedIsPair(e, k - 1, 26);
    }
  }

  lemma {:induction false} BurstListed(start: nat, length: nat, k: nat, b: nat)
    requires 2 <= length && start + length <= 10 && b <= Places(k)
    requires length < k || (length == k && start < b)
    ensures Run(start, length) in BurstsBefore(k, b)
    decreases k, b
  {
    hide Run;
    if b > 0 {
      if !(length == k && start == b - 1) {
        BurstListed(start, length, k, b - 1);
      }
    } else {
      BurstListed(start, length, k - 1, Places(k - 1));
    }
  }

  lemma {:induction false} ListedIsBurst(e: Block, k: nat, b: nat)
    requires b <= Places(k) && e in BurstsBefore(k, b) && (k < 2 ==> b == 0)
    ensures exists start, length |
        2 <= length <= k && 0 <= start && start + length <= 10 && (length == k ==> start < b) ::
      e == Run(start, length)
    decreases k, b
  {
    hide Run;
    if b > 0 {
      if e != Run(b - 1, k) {
        ListedIsBurst(e, k, b - 1);
      }
    } else {
      ListedIsBurst(e, k - 1, Places(k - 1));
    }
  }

  /** Exactly the patterns are listed. */
  lemma ListedExactly(e: Block, maxBurst: nat, twoBitData: bool)
    ensures e in Listed(maxBurst, twoBitData) <==> Pattern(e, maxBurst, twoBitData)
  {
    hide Run, Pair, PairsBefore, BurstsBefore;
    if Pattern(e, maxBurst, twoBitData) {
      if i :| 0 <= i < 26 && e == Run(i, 1) {
        assert Singles(26)[i] == e;
      } else if i, j :| twoBitData && 10 <= i < j < 26 && e == Pair(i, j) {
        PairListed(i, j, 25, 26);
      } else {
        var start, length :| 2 <= length <= maxBurst && 0 <= start && start + length <= 10 && e == Run(start, length);
        BurstListed(start, length, maxBurst + 1, 0);
      }
    }
    if e in Listed(maxBurst, twoBitData) {
      if e in Singles(26) {
        var i :| 0 <= i < 26 && Singles(26)[i] == e;
      } else if e in BurstsBefore(maxBurst + 1, 0) {
        ListedIsBurst(e, maxBurst + 1, 0);
      } else {
        ListedIsPair(e, 25, 26);
      }
    }
  }

  /** The table that is built: every entry is a pattern with that syndrome; every pattern's
      syndrome has an entry; and the entry of a single bit is that bit. */
  lemma TableBuilt(maxBurst: nat, twoBitData: bool)
    ensures var table := TableOf(Listed(maxBurst, twoBitData));
      && Sound(table, maxBurst, twoBitData)
      && (forall e: Block :: Pattern(e, maxBurst, twoBitData) ==> Syndrome(e) in table)
      && (forall i | 0 <= i < 26 :: table[Syndrome(Run(i, 1))] == Run(i, 1))
  {
    hide Syndrome, Run, Pattern, Listed, TableOf;
    var list := Listed(maxBurst, twoBitData);
    var table := TableOf(list);
    forall s | s in table ensures Syndrome(table[s]) == s && Pattern(table[s], maxBurst, twoBitData) {
      var k := FirstOwns(list, s);
      ListedExactly(list[k], maxBurst, twoBitData);
    }
    forall e: Block | Pattern(e, maxBurst, twoBitData) ensures Syndrome(e) in table {
      ListedExactly(e, maxBurst, twoBitData);
      var k :| 0 <= k < |list| && list[k] == e;
      var m := FirstOwns(list, Syndrome(e));
    }
    forall i | 0 <= i < 26 ensures Syndrome(Run(i, 1)) in table && table[Syndrome(Run(i, 1))] == Run(i, 1) {
      SinglesFirst(maxBurst, twoBitData, i);
      BitSyndromesDistinct(i);
      OwnEntry(list, i);
    }
  }

  lemma SinglesFirst(maxBurst: nat, twoBitData: bool, i: nat)
    requires i < 26
    ensures |Listed(maxBurst, twoBitData)| >= 26
    ensures forall m :: 0 <= m <= i ==> Listed(maxBurst, twoBitData)[m] == Run(m, 1)
  {
    hide Run, PairsBefore, BurstsBefore;
  }

  // ---------------------------------------------------------------- verification

  function DataOf(block: Block): Data {
    block[10..]
  }

  /** The offset words allowed at a position of the group, in the order they are tried. */
  function Offsets(position: nat): seq<Syn> {
    if position == 0 then [OffsetA()]
    else if position == 1 then [OffsetB()]
    else if position == 2 then [OffsetC(), OffsetC2()]
    else if position == 3 then [OffsetD()]
    else []
  }

  function VerifyAgainst(block: Block, offsets: seq<Syn>, table: Table): (Data, bool)
    decreases |offsets|
  {
    if offsets == [] then (DataOf(block), false)
    else
      var error := Xor(Syndrome(block), offsets[0]);
      if error == NO_ERROR then (DataOf(block), true)
      else if error in table then (DataOf(Xor(block, table[error])), true)
      else VerifyAgainst(block, offsets[1..], table)
  }

  /** What VerifyBlock computes. */
  function Verified(block: Block, position: nat, table: Table): (Data, bool) {
    VerifyAgainst(block, Offsets(position), table)
  }

  method VerifyBlock(block: Block, position: nat, table: Table) returns (data: Data, valid: bool)
    ensures (data, valid) == Verified(block, position, table)
  {
    hide Syndrome, Offsets, OffsetA, OffsetB, OffsetC, OffsetC2, OffsetD;
    var syndrome := CalcSyndrome(block);
    var offsets := Offsets(position);
    for i := 0 to |offsets|
      invariant Verified(block, position, table) == VerifyAgainst(block, offsets[i..], table)
    {
      var errorSyndrome := Xor(syndrome, offsets[i]);
      if errorSyndrome == NO_ERROR {
        return DataOf(block), true;
      }
      if errorSyndrome in table {
        return DataOf(Xor(block, table[errorSyndrome])), true;
      }
      assert offsets[i..][1..] == offsets[i + 1..];
    }
    return DataOf(block), false;
  }

  /** Soundness: an accepted block is a codeword of its position after at most one listed error
      pattern has been removed, and the data returned are that codeword's. */
  lemma {:induction false} AcceptedIsCodeword(block: Block, offsets: seq<Syn>, table: Table,
                                              maxBurst: nat, twoBitData: bool)
    returns (word: Block, offset: Syn)
    requires Sound(table, maxBurst, twoBitData) && VerifyAgainst(block, offsets, table).1
    ensures offset in offsets && Syndrome(word) == offset
    ensures DataOf(word) == VerifyAgainst(block, offsets, table).0
    ensures word == block || Pattern(Xor(block, word), maxBurst, twoBitData)
    decreases |offsets|
  {
    hide Syndrome, Pattern;
    var error := Xor(Syndrome(block), offsets[0]);
    offset := offsets[0];
    if error == NO_ERROR {
      word := block;
      XorSelf(Syndrome(block), offset);
      WeightZero(error);
    } else if error in table {
      word := Xor(block, table[error]);
      SyndromeXor(block, table[error]);
      XorSelf(Syndrome(block), offset);
      XorSelf(block, table[error]);
      XorSelf(word, block);
      assert Xor(block, word) == table[error];
    } else {
      word, offset := AcceptedIsCodeword(block, offsets[1..], table, maxBurst, twoBitData);
    }
  }

  /** An error leaves its own syndrome on top of the offset. */
  lemma ErrorSyndrome(c: Block, e: Block, offset: Syn)
    requires Syndrome(c) == offset
    ensures Xor(Syndrome(Xor(c, e)), offset) == Syndrome(e)
  {
    hide Syndrome;
    SyndromeXor(c, e);
    XorSelf(offset, Syndrome(e));
  }

  lemma NonzeroSum(a: Syn, b: Syn)
    requires a != b
    ensures Xor(a, b) != NO_ERROR
  {
    XorSelf(a, b);
    WeightZero(Xor(a, b));
  }
}
