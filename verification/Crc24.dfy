/** The Mode S parity check: a table-driven CRC-24 over bytes.

    The specification is division of bit strings, read as polynomials over GF(2) with the
    most significant coefficient first, by G(x) = x^24 + 0xFFF409. Divide does it one bit at a
    time; DivisibleExactly ties its remainder to multiplication of polynomials. */
module Crc24 {
  import opened Words
  import opened ShiftRegister

  // As in Words, index i of a register or byte is the bit of weight 2^i.
  type Rem = r: Bits | |r| == 24 witness seq(24, _ => false)
  type Byte = b: Bits | |b| == 8 witness seq(8, _ => false)

  const POLY: Rem := Unpack(0xFFF409, 24)

  function Zero(n: nat): (r: Bits)
    ensures |r| == n && forall i :: 0 <= i < n ==> !r[i]
  {
    seq(n, _ => false)
  }

  // ---------------------------------------------------------------- long division

  /** One step: bring down a bit, and subtract the divisor if its leading term fits. */
  function ShiftIn(rem: Rem, bit: bool): Rem {
    Shift(POLY, rem, bit)
  }

  function Feed(rem: Rem, bits: Bits): Rem
    decreases |bits|
  {
    if bits == [] then rem else ShiftIn(Feed(rem, bits[..|bits| - 1]), bits[|bits| - 1])
  }

  /** The remainder of a bit string, first bit most significant. */
  function Divide(bits: Bits): Rem {
    Feed(Zero(24), bits)
  }

  /** The bits of a byte in the order they are sent, most significant first. */
  function ByteBits(b: Byte): (r: Bits)
    ensures |r| == 8
  {
    seq(8, i requires 0 <= i < 8 => b[7 - i])
  }

  function MessageBits(msg: seq<Byte>): (r: Bits)
    ensures |r| == 8 * |msg|
  {
    if msg == [] then [] else MessageBits(msg[..|msg| - 1]) + ByteBits(msg[|msg| - 1])
  }

  /** Multiplication by x^n: bring down n zeros. */
  function Zeros(rem: Rem, n: nat): Rem {
    if n == 0 then rem else ShiftIn(Zeros(rem, n - 1), false)
  }

  // ---------------------------------------------------------------- linearity

  lemma ShiftInSum(a: Rem, p: bool, b: Rem, q: bool)
    ensures ShiftIn(Xor(a, b), p != q) == Xor(ShiftIn(a, p), ShiftIn(b, q))
  {
    ShiftSum(POLY, a, p, b, q);
  }

  lemma ShiftInBit(rem: Rem, bit: bool, k: nat)
    requires k < 24
    ensures ShiftIn(rem, bit)[k] == ((if k == 0 then bit else rem[k - 1]) != (rem[23] && POLY[k]))
  {
    ShiftBit(POLY, rem, bit, k);
  }

  lemma {:induction false} FeedSum(a: Rem, xs: Bits, b: Rem, ys: Bits)
    requires |xs| == |ys|
    ensures Feed(Xor(a, b), Xor(xs, ys)) == Xor(Feed(a, xs), Feed(b, ys))
    decreases |xs|
  {
    hide ShiftIn;
    if xs != [] {
      var n := |xs| - 1;
      FeedSum(a, xs[..n], b, ys[..n]);
      assert Xor(xs, ys)[..n] == Xor(xs[..n], ys[..n]);
      ShiftInSum(Feed(a, xs[..n]), xs[n], Feed(b, ys[..n]), ys[n]);
    }
  }

  /** Linearity on equal lengths: message and error leave independent remainders. */
  lemma DivideLinear(xs: Bits, ys: Bits)
    requires |xs| == |ys|
    ensures Divide(Xor(xs, ys)) == Xor(Divide(xs), Divide(ys))
  {
    assert Xor(Zero(24), Zero(24)) == Zero(24);
    FeedSum(Zero(24), xs, Zero(24), ys);
  }

  lemma {:induction false} FeedConcat(rem: Rem, xs: Bits, ys: Bits)
    ensures Feed(rem, xs + ys) == Feed(Feed(rem, xs), ys)
    decreases |ys|
  {
    hide ShiftIn;
    if ys == [] {
      assert xs + ys == xs;
    } else {
      var n := |ys| - 1;
      FeedConcat(rem, xs, ys[..n]);
      assert (xs + ys)[..|xs + ys| - 1] == xs + ys[..n];
    }
  }

  lemma {:induction false} ZerosSum(a: Rem, b: Rem, n: nat)
    ensures Zeros(Xor(a, b), n) == Xor(Zeros(a, n), Zeros(b, n))
  {
    hide ShiftIn;
    if n > 0 {
      ZerosSum(a, b, n - 1);
      ShiftInSum(Zeros(a, n - 1), false, Zeros(b, n - 1), false);
    }
  }

  lemma {:induction false} ZerosAdd(a: Rem, m: nat, n: nat)
    ensures Zeros(Zeros(a, m), n) == Zeros(a, m + n)
  {
    hide ShiftIn;
    if n > 0 {
      ZerosAdd(a, m, n - 1);
    }
  }

  lemma {:induction false} FeedZeros(a: Rem, n: nat)
    ensures Feed(a, Zero(n)) == Zeros(a, n)
  {
    hide ShiftIn;
    if n > 0 {
      FeedZeros(a, n - 1);
      assert Zero(n)[..n - 1] == Zero(n - 1);
    }
  }

  /** A short string fed into an empty register is simply stored. */
  lemma {:induction false} FeedShort(bits: Bits)
    requires |bits| <= 24
    ensures forall i :: 0 <= i < 24 ==>
      (Feed(Zero(24), bits)[i] <==> i < |bits| && bits[|bits| - 1 - i])
    decreases |bits|
  {
    hide POLY;
    if bits != [] {
      FeedShort(bits[..|bits| - 1]);
    }
  }

  /** Feeding is affine: shift up the register, and add what the bits alone leave. */
  lemma FeedSplit(rem: Rem, bits: Bits)
    ensures Feed(rem, bits) == Xor(Zeros(rem, |bits|), Divide(bits))
  {
    FeedSum(rem, Zero(|bits|), Zero(24), bits);
    FeedZeros(rem, |bits|);
    assert Xor(rem, Zero(24)) == rem;
    assert Xor(Zero(|bits|), bits) == bits;
  }

  // ---------------------------------------------------------------- the table

  /** The byte b in bits 16..23 of a register, that is b << 16. */
  function Top(b: Byte): Rem {
    Zero(16) + b
  }

  /** Table entry of b: what eight steps of division make of b << 16. */
  function Entry(b: Byte): Rem {
    Zeros(Top(b), 8)
  }

  /** The module-level loop that fills the table. The working value is not truncated while
      it is shifted; only the low 24 bits are kept at the end. */
  method BuildTable() returns (table: seq<Rem>)
    ensures |table| == 256 && forall b: Byte :: table[ByteValue(b)] == Entry(b)
  {
    hide POLY, Unpack;
    table := seq(256, _ => Zero(24));
    for i := 0 to 256
      invariant |table| == 256 && forall k :: 0 <= k < i ==> table[k] == Entry(Unpack(k, 8))
    {
      var c: Bits := Zero(16) + Unpack(i, 8);
      for j := 0 to 8
        invariant |c| == 24 + j && c[..24] == Zeros(Top(Unpack(i, 8)), j)
      {
        ghost var before := Zeros(Top(Unpack(i, 8)), j);
        var top := c[23];
        c := [false] + c;
        assert c[..24] == [false] + before[..23];
        if top {
          c := Xor(c[..24], POLY) + c[24..];
        }
        assert c[..24] == ShiftIn(before, false);
      }
      table := table[i := c[..24]];
    }
    forall b: Byte ensures table[ByteValue(b)] == Entry(b) {
      UnpackValue(b);
    }
  }

  function ByteValue(b: Byte): (v: nat)
    ensures v < 256
  {
    assert Power2(8) == 256;
    Value(b)
  }

  // ---------------------------------------------------------------- crc24

  datatype Crc = Remainder(rem: Rem) | IndexError

  /** The last three bytes of a message as a 24-bit number, read at the indices n-3, n-2, n-1.
      With two bytes the first of those indices is -1, which Python reads as the last byte. */
  function Tail(msg: seq<Byte>): Rem
    requires |msg| >= 2
  {
    var n := |msg|;
    var low: Bits := msg[n - 1];
    low + msg[n - 2] + (if n == 2 then msg[1] else msg[n - 3])
  }

  /** What the table-driven computation answers. */
  function Crc24(msg: seq<Byte>): Crc {
    if |msg| < 2 then IndexError
    else if |msg| == 2 then Remainder(Tail(msg))
    else Remainder(Divide(MessageBits(msg)))
  }

  /** One byte of the main loop, on a register holding the remainder times x^24. */
  lemma TableStep(acc: Rem, b: Byte)
    ensures var index: Byte := Xor(b, acc[16..]);
      Xor(Zero(8) + acc[..16], Entry(index)) == Zeros(Xor(acc, Top(b)), 8)
  {
    hide POLY, Unpack, ShiftIn;
    var index: Byte := Xor(b, acc[16..]);
    var low: Rem := acc[..16] + Zero(8);
    ZerosOfLow(low);
    ZerosSum(low, Top(index), 8);
    assert Xor(low, Top(index)) == Xor(acc, Top(b));
    assert Zero(8) + low[..16] == Zero(8) + acc[..16];
    XorSelf(Zero(8) + acc[..16], Entry(index));
  }

  /** Bits that do not reach the top of the register just move up. */
  lemma {:induction false} ZerosOfLow(low: Rem)
    requires forall i :: 16 <= i < 24 ==> !low[i]
    ensures Zeros(low, 8) == Zero(8) + low[..16]
  {
    hide POLY, ShiftIn;
    var n := 0;
    assert Zero(0) + low[..24] == low;
    while n < 8
      invariant 0 <= n <= 8 && Zeros(low, n) == Zero(n) + low[..24 - n]
    {
      LowMoves(low, n, Zeros(low, n));
      n := n + 1;
    }
  }

  lemma LowMoves(low: Rem, n: nat, r: Rem)
    requires n < 8 && r == Zero(n) + low[..24 - n] && !low[23 - n]
    ensures ShiftIn(r, false) == Zero(n + 1) + low[..23 - n]
  {
    hide POLY, ShiftIn;
    var moved := Zero(n + 1) + low[..23 - n];
    forall k | 0 <= k < 24 ensures ShiftIn(r, false)[k] == moved[k] {
      ShiftInBit(r, false, k);
    }
  }

  method Crc24Loop(msg: seq<Byte>, table: seq<Rem>) returns (result: Crc)
    requires |table| == 256 && forall b: Byte :: table[ByteValue(b)] == Entry(b)
    ensures result == Crc24(msg)
  {
    hide POLY, Unpack, Divide, Entry, Zeros, Xor, MessageBits, ByteValue;
    var rem: Rem := Zero(24);
    var n := |msg|;
    if n < 2 {
      return IndexError;
    }
    NothingYet(msg);
    var i := 0;
    while i < n - 3
      invariant 0 <= i <= n && (i > 0 ==> i <= n - 3)
      invariant rem == Zeros(Divide(MessageBits(msg[..i])), 24)
    {
      MainStep(msg, i, rem);
      var index: Byte := Xor(msg[i], rem[16..]);
      rem := Xor(Zero(8) + rem[..16], table[ByteValue(index)]);
      i := i + 1;
    }
    if n >= 3 {
      FinishBytes(msg);
    }
    return Remainder(Xor(rem, Tail(msg)));
  }

  lemma NothingYet(msg: seq<Byte>)
    requires |msg| >= 2
    ensures Zeros(Divide(MessageBits(msg[..0])), 24) == Zero(24)
    ensures Xor(Zero(24), Tail(msg)) == Tail(msg)
  {
    hide POLY;
    ZerosOfZero(24);
    FeedNothing();
    assert msg[..0] == [];
  }

  lemma MainStep(msg: seq<Byte>, i: nat, rem: Rem)
    requires i < |msg| && rem == Zeros(Divide(MessageBits(msg[..i])), 24)
    ensures var index: Byte := Xor(msg[i], rem[16..]);
      Xor(Zero(8) + rem[..16], Entry(index)) == Zeros(Divide(MessageBits(msg[..i + 1])), 24)
  {
    hide POLY, Unpack, Divide, Entry, Zeros, MessageBits;
    AccumulatedByte(msg[..i], msg[i]);
    assert msg[..i + 1] == msg[..i] + [msg[i]];
    TableStep(rem, msg[i]);
  }

  lemma FeedNothing()
    ensures Divide(MessageBits([])) == Zero(24)
  {
  }

  lemma {:induction false} ZerosOfZero(n: nat)
    ensures Zeros(Zero(24), n) == Zero(24)
  {
    hide POLY;
    if n > 0 {
      ZerosOfZero(n - 1);
    }
  }

  lemma DivideByte(b: Byte)
    ensures Divide(ByteBits(b)) == b + Zero(16)
  {
    hide POLY, Feed;
    FeedShort(ByteBits(b));
  }

  /** Appending a byte to the message, seen in the register that holds remainder times x^24. */
  lemma AccumulatedByte(msg: seq<Byte>, b: Byte)
    ensures Zeros(Divide(MessageBits(msg + [b])), 24)
         == Zeros(Xor(Zeros(Divide(MessageBits(msg)), 24), Top(b)), 8)
  {
    hide POLY, ShiftIn, Feed, Zeros;
    var r := Divide(MessageBits(msg));
    MessageSnoc(msg, b);
    FeedConcat(Zero(24), MessageBits(msg), ByteBits(b));
    FeedSplit(r, ByteBits(b));
    DivideByte(b);
    var low: Rem := b + Zero(16);
    ZerosSum(Zeros(r, 8), low, 24);
    ZerosAdd(r, 8, 24);
    ZerosAdd(r, 24, 8);
    ZerosSum(Zeros(r, 24), Top(b), 8);
    ByteClimbs(b);
    ZerosAdd(low, 16, 8);
  }

  lemma ByteClimbs(b: Byte)
    ensures Zeros(b + Zero(16), 16) == Top(b)
  {
    hide POLY, Zeros, Unpack;
    var low: Rem := b + Zero(16);
    var mid: Rem := Zero(8) + b + Zero(8);
    ZerosOfLow(low);
    assert Zero(8) + low[..16] == mid;
    ZerosOfLow(mid);
    assert Zero(8) + mid[..16] == Top(b);
    ZerosAdd(low, 8, 8);
  }

  /** The last three bytes are added without any table step. */
  lemma FinishBytes(msg: seq<Byte>)
    requires |msg| >= 3
    ensures Divide(MessageBits(msg))
         == Xor(Zeros(Divide(MessageBits(msg[..|msg| - 3])), 24), Tail(msg))
  {
    hide POLY, ShiftIn, Feed, Zeros, Unpack, MessageBits;
    var n := |msg|;
    var tail := ThreeBytes(msg[n - 3], msg[n - 2], msg[n - 1]);
    var head := MessageBits(msg[..n - 3]);
    LastThree(msg);
    FeedConcat(Zero(24), head, tail);
    FeedSplit(Divide(head), tail);
    DivideThree(msg[n - 3], msg[n - 2], msg[n - 1]);
  }

  function ThreeBytes(a: Byte, b: Byte, c: Byte): (r: Bits)
    ensures |r| == 24
  {
    ByteBits(a) + ByteBits(b) + ByteBits(c)
  }

  lemma LastThree(msg: seq<Byte>)
    requires |msg| >= 3
    ensures var n := |msg|;
      MessageBits(msg) == MessageBits(msg[..n - 3]) + ThreeBytes(msg[n - 3], msg[n - 2], msg[n - 1])
  {
    hide ByteBits, MessageBits;
    var n := |msg|;
    var a, b, c := ByteBits(msg[n - 3]), ByteBits(msg[n - 2]), ByteBits(msg[n - 1]);
    MessagePrefix(msg, n);
    MessagePrefix(msg, n - 1);
    MessagePrefix(msg, n - 2);
    assert msg[..n] == msg;
    Regroup(MessageBits(msg[..n - 3]), a, b, c);
  }

  lemma MessagePrefix(msg: seq<Byte>, n: nat)
    requires 0 < n <= |msg|
    ensures MessageBits(msg[..n]) == MessageBits(msg[..n - 1]) + ByteBits(msg[n - 1])
  {
    assert msg[..n][..n - 1] == msg[..n - 1];
  }

  lemma Regroup(a: Bits, b: Bits, c: Bits, d: Bits)
    ensures a + b + c + d == a + (b + c + d)
  {
  }

  lemma MessageSnoc(msg: seq<Byte>, b: Byte)
    ensures MessageBits(msg + [b]) == MessageBits(msg) + ByteBits(b)
  {
    assert (msg + [b])[..|msg|] == msg;
  }

  lemma DivideThree(a: Byte, b: Byte, c: Byte)
    ensures Divide(ThreeBytes(a, b, c)) == c + b + a
  {
    hide POLY, Feed;
    FeedShort(ThreeBytes(a, b, c));
  }

  // ---------------------------------------------------------------- divisibility

  /** The coefficients of G(x) = x^24 + 0xFFF409, leading one first. */
  function G(): (g: Bits)
    ensures |g| == 25
  {
    seq(25, j requires 0 <= j < 25 => j == 0 || POLY[24 - j])
  }

  /** Schoolbook product of a polynomial with G, most significant coefficient first. */
  function Product(q: Bits): (p: Bits)
    ensures |p| == |q| + 24
  {
    if q == [] then Zero(24)
    else
      var n := |q| - 1;
      Xor(Product(q[..n]) + [false], Zero(n) + (if q[n] then G() else Zero(25)))
  }

  /** M is a multiple of G, leading zeros aside. */
  ghost predicate Divisible(bits: Bits) {
    exists q: Bits :: |q| == |bits| && Product(q) == Zero(24) + bits
  }

  function RemBits(r: Rem): (bits: Bits)
    ensures |bits| == 24
  {
    seq(24, i requires 0 <= i < 24 => r[23 - i])
  }

  /** The quotient bits: what long division finds at the top of the register. */
  function Quotient(bits: Bits): (q: Bits)
    ensures |q| == |bits|
    decreases |bits|
  {
    if bits == [] then []
    else
      var n := |bits| - 1;
      Quotient(bits[..n]) + [Divide(bits[..n])[23]]
  }

  lemma StepBalance(r: Rem, b: bool, j: nat)
    requires j < 25
    ensures (RemBits(r) + [b])[j] ==
      ((r[23] && G()[j]) != ([false] + RemBits(ShiftIn(r, b)))[j])
  {
    hide POLY, ShiftIn;
    if j > 0 {
      ShiftInBit(r, b, 24 - j);
    }
  }

  /** The division algorithm: dividend = quotient * G + remainder. */
  lemma {:induction false} DivisionAlgorithm(bits: Bits)
    ensures Zero(24) + bits == Xor(Product(Quotient(bits)), Zero(|bits|) + RemBits(Divide(bits)))
    decreases |bits|
  {
    hide POLY, ShiftIn, Product, Quotient, RemBits;
    if bits == [] {
      EmptyDivision();
    } else {
      var n := |bits| - 1;
      var head, b := bits[..n], bits[n];
      assert head + [b] == bits;
      DivisionAlgorithm(head);
      QuotientSnoc(head, b);
      assert Quotient(bits)[..n] == Quotient(head);
      ProductUnfolds(Quotient(bits));
      BringDown(head, Product(Quotient(head)), Divide(head), b);
    }
  }

  lemma EmptyDivision()
    ensures Zero(24) + [] == Xor(Product(Quotient([])), Zero(0) + RemBits(Divide([])))
  {
    assert RemBits(Zero(24)) == Zero(24);
  }

  lemma QuotientSnoc(bits: Bits, b: bool)
    ensures Quotient(bits + [b]) == Quotient(bits) + [Divide(bits)[23]]
    ensures Divide(bits + [b]) == ShiftIn(Divide(bits), b)
  {
    hide ShiftIn;
    assert (bits + [b])[..|bits|] == bits;
  }

  lemma ProductUnfolds(q: Bits)
    requires q != []
    ensures var n := |q| - 1;
      Product(q) == Xor(Product(q[..n]) + [false], Zero(n) + (if q[n] then G() else Zero(25)))
  {
  }

  /** One step keeps the balance dividend = product + remainder. */
  lemma BringDown(head: Bits, p: Bits, r: Rem, b: bool)
    requires |p| == |head| + 24 && Zero(24) + head == Xor(p, Zero(|head|) + RemBits(r))
    ensures var n := |head|;
      var p' := Xor(p + [false], Zero(n) + (if r[23] then G() else Zero(25)));
      Zero(24) + (head + [b]) == Xor(p', Zero(n + 1) + RemBits(ShiftIn(r, b)))
  {
    hide POLY, ShiftIn, G, RemBits;
    var n := |head|;
    var g := if r[23] then G() else Zero(25);
    var p' := Xor(p + [false], Zero(n) + g);
    var lhs, rhs := Zero(24) + (head + [b]), Xor(p', Zero(n + 1) + RemBits(ShiftIn(r, b)));
    forall k | 0 <= k < n + 25 ensures lhs[k] == rhs[k] {
      if k < n {
        assert (Zero(24) + head)[k] == Xor(p, Zero(n) + RemBits(r))[k];
      } else {
        var j := k - n;
        StepBalance(r, b, j);
        assert (Zero(n) + g)[k] == g[j];
        assert (Zero(n + 1) + RemBits(ShiftIn(r, b)))[k] == ([false] + RemBits(ShiftIn(r, b)))[j];
        if j < 24 {
          assert (Zero(24) + head)[k] == Xor(p, Zero(n) + RemBits(r))[k];
          assert (Zero(n) + RemBits(r))[k] == RemBits(r)[j];
        }
      }
    }
  }

  lemma DivideG()
    ensures Divide(G()) == Zero(24)
  {
    hide POLY;
    var head := G()[..24];
    FeedShort(head);
    var r := Divide(head);
    forall i | 0 <= i < 24 ensures r[i] == G()[23 - i] {
      assert head[23 - i] == G()[23 - i];
    }
    var s: Rem := [G()[24]] + r[..23];
    assert forall i :: 0 <= i < 24 ==> s[i] == G()[24 - i] == POLY[i];
    assert Xor(s, POLY) == Zero(24);
  }

  lemma LeadingZeros(n: nat, bits: Bits)
    ensures Divide(Zero(n) + bits) == Divide(bits)
  {
    hide POLY, ShiftIn;
    FeedConcat(Zero(24), Zero(n), bits);
    FeedZeros(Zero(24), n);
    ZerosOfZero(n);
  }

  lemma {:induction false} ProductDivides(q: Bits)
    ensures Divide(Product(q)) == Zero(24)
    decreases |q|
  {
    hide POLY, ShiftIn, Feed;
    if q == [] {
      FeedZeros(Zero(24), 24);
      ZerosOfZero(24);
    } else {
      var n := |q| - 1;
      ProductDivides(q[..n]);
      var p := Product(q[..n]);
      var g := if q[n] then G() else Zero(25);
      DivideLinear(p + [false], Zero(n) + g);
      assert [false] == Zero(1);
      FeedConcat(Zero(24), p, Zero(1));
      FeedZeros(Zero(24), 1);
      ZerosOfZero(1);
      LeadingZeros(n, g);
      DivideG();
      FeedZeros(Zero(24), 25);
      ZerosOfZero(25);
      assert Xor(Zero(24), Zero(24)) == Zero(24);
    }
  }

  /** The remainder is zero exactly for the multiples of G. */
  lemma DivisibleExactly(bits: Bits)
    ensures Divide(bits) == Zero(24) <==> Divisible(bits)
  {
    hide POLY, Feed, Product;
    if Divide(bits) == Zero(24) {
      DivisionAlgorithm(bits);
      var q := Quotient(bits);
      var rest := Zero(|bits|) + RemBits(Zero(24));
      assert forall i :: 0 <= i < |rest| ==> !rest[i];
      assert Xor(Product(q), rest) == Product(q);
      assert Product(q) == Zero(24) + bits;
    }
    if Divisible(bits) {
      var q: Bits :| |q| == |bits| && Product(q) == Zero(24) + bits;
      ProductDivides(q);
      LeadingZeros(24, bits);
    }
  }

  /** A message of at least three bytes passes the check exactly when it is a multiple of G. */
  lemma AcceptedExactly(msg: seq<Byte>)
    requires |msg| >= 3
    ensures Crc24(msg) == Remainder(Zero(24)) <==> Divisible(MessageBits(msg))
  {
    hide Divide, Divisible;
    DivisibleExactly(MessageBits(msg));
  }

  // ---------------------------------------------------------------- error detection

  lemma ConstantTerm()
    ensures POLY[0]
  {
    hide Unpack;
    UnpackLow(0xFFF409, 24);
  }

  /** G has constant term 1, so shifting in a zero never makes a nonzero register zero. */
  lemma ShiftKeepsNonzero(r: Rem)
    requires ShiftIn(r, false) == Zero(24)
    ensures r == Zero(24)
  {
    hide POLY;
    ConstantTerm();
    var s: Rem := [false] + r[..23];
    assert !r[23] by {
      assert Xor(s, POLY)[0];
    }
    forall i | 0 <= i < 24 ensures !r[i] {
      assert i < 23 ==> !s[i + 1];
    }
  }

  lemma {:induction false} ZerosKeepNonzero(r: Rem, n: nat)
    requires Zeros(r, n) == Zero(24)
    ensures r == Zero(24)
  {
    hide ShiftIn, POLY;
    if n > 0 {
      ShiftKeepsNonzero(Zeros(r, n - 1));
      ZerosKeepNonzero(r, n - 1);
    }
  }

  lemma CutOut(e: Bits, start: nat, end: nat)
    requires start <= end <= |e|
    requires forall k :: 0 <= k < |e| && e[k] ==> start <= k < end
    ensures e == Zero(start) + e[start..end] + Zero(|e| - end)
  {
  }

  /** A nonzero error pattern confined to 24 consecutive bits has a nonzero remainder. */
  lemma BurstRemainder(e: Bits, start: nat, i: nat)
    requires i < |e| && e[i]
    requires forall k :: 0 <= k < |e| && e[k] ==> start <= k < start + 24
    ensures Divide(e) != Zero(24)
  {
    hide POLY, ShiftIn, Zeros;
    var end := if start + 24 <= |e| then start + 24 else |e|;
    var burst := e[start..end];
    CutOut(e, start, end);
    FeedConcat(Zero(24), Zero(start) + burst, Zero(|e| - end));
    LeadingZeros(start, burst);
    FeedZeros(Divide(burst), |e| - end);
    FeedShort(burst);
    assert burst[i - start];
    assert Divide(burst)[end - 1 - i];
    if Divide(e) == Zero(24) {
      ZerosKeepNonzero(Divide(burst), |e| - end);
    }
  }

  /** Burst detection: a valid message of any length, damaged in any nonempty set of bits
      that fits in 24 consecutive ones, fails the check. */
  lemma BurstDetected(msg: seq<Byte>, received: seq<Byte>, start: nat)
    requires |msg| == |received| >= 3 && msg != received
    requires Crc24(msg) == Remainder(Zero(24))
    requires forall k :: 0 <= k < 8 * |msg| && MessageBits(msg)[k] != MessageBits(received)[k] ==>
      start <= k < start + 24
    ensures Crc24(received) != Remainder(Zero(24))
  {
    hide POLY, Feed, MessageBits;
    var a, b := MessageBits(msg), MessageBits(received);
    if a == b {
      MessageBitsInjective(msg, received);
      assert false;
    }
    var e := Xor(a, b);
    var i :| 0 <= i < |a| && a[i] != b[i];
    BurstRemainder(e, start, i);
    XorSelf(a, b);
    DivideLinear(a, b);
    assert Xor(Zero(24), Divide(b)) == Divide(b);
  }

  lemma ByteBitsInjective(a: Byte, b: Byte)
    requires ByteBits(a) == ByteBits(b)
    ensures a == b
  {
    forall i | 0 <= i < 8 ensures a[i] == b[i] {
      assert ByteBits(a)[7 - i] == a[i] && ByteBits(b)[7 - i] == b[i];
    }
  }

  lemma AppendInjective(x: Bits, y: Bits, u: Bits, v: Bits)
    requires |x| == |y| && x + u == y + v
    ensures x == y && u == v
  {
    assert (x + u)[..|x|] == x && (y + v)[..|x|] == y;
    assert (x + u)[|x|..] == u && (y + v)[|x|..] == v;
  }

  lemma {:induction false} MessageBitsInjective(a: seq<Byte>, b: seq<Byte>)
    requires |a| == |b| && MessageBits(a) == MessageBits(b)
    ensures a == b
    decreases |a|
  {
    hide ByteBits;
    if a != [] {
      var n := |a| - 1;
      AppendInjective(MessageBits(a[..n]), MessageBits(b[..n]), ByteBits(a[n]), ByteBits(b[n]));
      MessageBitsInjective(a[..n], b[..n]);
      ByteBitsInjective(a[n], b[n]);
      SnocEqual(a, b);
    }
  }

  lemma SnocEqual<T>(a: seq<T>, b: seq<T>)
    requires |a| == |b| > 0 && a[..|a| - 1] == b[..|b| - 1] && a[|a| - 1] == b[|b| - 1]
    ensures a == b
  {
    assert a == a[..|a| - 1] + [a[|a| - 1]];
    assert b == b[..|b| - 1] + [b[|b| - 1]];
  }

  /** Address overlay: for any payload and any address there is exactly one choice of the last
      three bytes that makes the remainder equal to the address, namely parity plus address. */
  lemma AddressRecovered(payload: seq<Byte>, tail: seq<Byte>, address: Rem)
    requires |tail| == 3
    ensures var parity := Divide(MessageBits(payload) + Zero(24));
      Crc24(payload + tail) == Remainder(address) <==> Tail(tail) == Xor(parity, address)
  {
    hide POLY, Feed, MessageBits;
    var msg := payload + tail;
    FinishBytes(msg);
    assert msg[..|msg| - 3] == payload;
    FeedConcat(Zero(24), MessageBits(payload), Zero(24));
    FeedZeros(Divide(MessageBits(payload)), 24);
    var parity := Divide(MessageBits(payload) + Zero(24));
    assert Tail(msg) == Tail(tail);
    XorSelf(parity, Tail(tail));
    XorSelf(parity, address);
  }
}
