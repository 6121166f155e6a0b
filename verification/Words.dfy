/** Words of bits. Index i of a word is the bit of weight 2^i, that is (value >> i) & 1. */
module Words {
  import opened Arithmetic

  type Bits = seq<bool>

  function Xor(a: Bits, b: Bits): (r: Bits)
    requires |a| == |b|
    ensures |r| == |a|
    ensures forall i :: 0 <= i < |a| ==> r[i] == (a[i] != b[i])
  {
    seq(|a|, i requires 0 <= i < |a| => a[i] != b[i])
  }

  function Not(a: Bits): (r: Bits)
    ensures |r| == |a|
    ensures forall i :: 0 <= i < |a| ==> r[i] == !a[i]
  {
    seq(|a|, i requires 0 <= i < |a| => !a[i])
  }

  /** Exclusive or with 1 << i. */
  function Flip(a: Bits, i: nat): (r: Bits)
    requires i < |a|
    ensures |r| == |a|
  {
    a[i := !a[i]]
  }

  /** Number of one bits. */
  function Weight(a: Bits): (n: nat)
    ensures n <= |a|
  {
    if a == [] then 0 else Weight(a[..|a| - 1]) + (if a[|a| - 1] then 1 else 0)
  }

  predicate EvenParity(a: Bits) {
    Weight(a) % 2 == 0
  }

  lemma {:induction false} WeightUpdate(a: Bits, i: nat, v: bool)
    requires i < |a|
    ensures Weight(a[i := v]) + (if a[i] then 1 else 0) == Weight(a) + (if v then 1 else 0)
  {
    var n := |a| - 1;
    if i == n {
      assert a[i := v][..n] == a[..n];
    } else {
      assert a[i := v][..n] == a[..n][i := v];
      WeightUpdate(a[..n], i, v);
    }
  }

  lemma {:induction false} WeightCons(x: bool, a: Bits)
    ensures Weight([x] + a) == (if x then 1 else 0) + Weight(a)
  {
    if a != [] {
      var n := |a| - 1;
      WeightCons(x, a[..n]);
      assert ([x] + a)[..n + 1] == [x] + a[..n];
    } else {
      assert [x] + a == [x];
      assert [x][..0] == [];
    }
  }

  lemma {:induction false} WeightZero(a: Bits)
    ensures Weight(a) == 0 <==> forall i :: 0 <= i < |a| ==> !a[i]
  {
    if a != [] {
      WeightZero(a[..|a| - 1]);
      assert forall i :: 0 <= i < |a| - 1 ==> a[..|a| - 1][i] == a[i];
    }
  }

  /** The index of some one bit. */
  lemma SomeOne(a: Bits) returns (i: nat)
    requires Weight(a) > 0
    ensures i < |a| && a[i]
    ensures Weight(a[i := false]) == Weight(a) - 1
  {
    WeightZero(a);
    i :| 0 <= i < |a| && a[i];
    WeightUpdate(a, i, false);
  }

  /** The weight of a sum is the sum of the weights less twice the number of common ones. */
  lemma {:induction false} XorWeight(a: Bits, b: Bits) returns (common: nat)
    requires |a| == |b|
    ensures Weight(Xor(a, b)) + 2 * common == Weight(a) + Weight(b)
  {
    if a == [] {
      common := 0;
    } else {
      var n := |a| - 1;
      common := XorWeight(a[..n], b[..n]);
      assert Xor(a, b)[..n] == Xor(a[..n], b[..n]);
      assert Weight(Xor(a, b)) == Weight(Xor(a[..n], b[..n])) + (if a[n] != b[n] then 1 else 0);
      common := common + (if a[n] && b[n] then 1 else 0);
    }
  }

  lemma XorSelf(a: Bits, b: Bits)
    requires |a| == |b|
    ensures Xor(Xor(a, b), b) == a && Xor(Xor(a, b), a) == b && Xor(a, b) == Xor(b, a)
    ensures Weight(Xor(a, b)) == 0 <==> a == b
  {
    WeightZero(Xor(a, b));
    assert Xor(Xor(a, b), b) == a;
    assert Xor(Xor(a, b), a) == b;
    assert Xor(a, b) == Xor(b, a);
    if forall i :: 0 <= i < |a| ==> !Xor(a, b)[i] {
      forall i | 0 <= i < |a| ensures a[i] == b[i] {
        assert !Xor(a, b)[i];
      }
      assert a == b;
    }
  }

  /** Applying an error pattern is flipping one of its bits in the word the rest gives. */
  lemma XorFlip(a: Bits, e: Bits, i: nat)
    requires |a| == |e| && i < |e| && e[i]
    ensures Xor(a, e) == Flip(Xor(a, e[i := false]), i)
  {
  }

  lemma XorNothing(a: Bits, e: Bits)
    requires |a| == |e| && Weight(e) == 0
    ensures Xor(a, e) == a
  {
    WeightZero(e);
  }

  // ---------------------------------------------------------------- numbers

  function Power2(n: nat): (p: nat)
    ensures p >= 1
  {
    if n == 0 then 1 else 2 * Power2(n - 1)
  }

  /** The low n bits of a number, least significant first. */
  function Unpack(v: nat, n: nat): (w: Bits)
    ensures |w| == n
  {
    if n == 0 then [] else [v % 2 == 1] + Unpack(v / 2, n - 1)
  }

  lemma UnpackLow(v: nat, n: nat)
    requires n > 0
    ensures Unpack(v, n)[0] <==> v % 2 == 1
  {
  }

  lemma {:induction false} UnpackBit(v: nat, n: nat, i: nat)
    requires i < n
    ensures Unpack(v, n)[i] <==> (v / Power2(i)) % 2 == 1
  {
    hide Power2;
    UnpackStep(v, n);
    if i > 0 {
      hide Unpack;
      UnpackBit(v / 2, n - 1, i - 1);
      assert v / Power2(i) == (v / 2) / Power2(i - 1) by {
        Power2Step(i);
        HalveTwice(v, Power2(i - 1));
      }
    } else {
      Power2Zero();
    }
  }

  lemma UnpackStep(v: nat, n: nat)
    requires n > 0
    ensures Unpack(v, n)[0] <==> v % 2 == 1
    ensures forall i :: 0 < i < n ==> Unpack(v, n)[i] == Unpack(v / 2, n - 1)[i - 1]
  {
  }

  lemma TwoBits(high: nat, low: nat, n: nat)
    requires low < 4
    ensures Unpack(4 * high + low, n + 2) == [low % 2 == 1, low / 2 == 1] + Unpack(high, n)
  {
    hide Unpack;
    var v := 4 * high + low;
    assert v % 2 == low % 2 && v / 2 == 2 * high + low / 2 && v / 2 / 2 == high;
    UnpackStep(v, n + 2);
    UnpackStep(v / 2, n + 1);
  }

  /** Four bits, least significant first. */
  function Nibble(low: nat): Bits {
    [low % 2 == 1, low / 2 % 2 == 1, low / 4 % 2 == 1, low / 8 == 1]
  }

  lemma FourBits(high: nat, low: nat, n: nat)
    requires low < 16
    ensures Unpack(16 * high + low, n + 4) == Nibble(low) + Unpack(high, n)
  {
    hide Unpack;
    TwoBits(high, low / 4, n);
    TwoBits(4 * high + low / 4, low % 4, n + 2);
    assert 4 * (4 * high + low / 4) + low % 4 == 16 * high + low;
  }

  lemma Power2Step(i: nat)
    requires i > 0
    ensures Power2(i) == 2 * Power2(i - 1)
  {
  }

  lemma Power2Zero()
    ensures Power2(0) == 1
  {
  }

  lemma HalveTwice(v: nat, p: nat)
    requires p >= 1
    ensures v / (2 * p) == (v / 2) / p
  {
    var half, low := v / 2, v % 2;
    var q, r := half / p, half % p;
    assert half == p * q + r;
    assert 2 * (p * q) == (2 * p) * q;
    DivModUnique(v, 2 * p, q, 2 * r + low);
  }

  function Value(w: Bits): (v: nat)
    ensures v < Power2(|w|)
  {
    if w == [] then 0 else (if w[0] then 1 else 0) + 2 * Value(w[1..])
  }

  lemma {:induction false} ValueAppend(low: Bits, high: Bits)
    ensures Value(low + high) == Value(low) + Power2(|low|) * Value(high)
  {
    if low == [] {
      assert low + high == high;
    } else {
      ValueAppend(low[1..], high);
      assert (low + high)[1..] == low[1..] + high;
      Doubled(Power2(|low| - 1), Value(high));
    }
  }

  lemma Doubled(p: nat, v: nat)
    ensures (2 * p) * v == 2 * (p * v)
  {
  }

  lemma {:induction false} UnpackValue(w: Bits)
    ensures Unpack(Value(w), |w|) == w
  {
    if w != [] {
      UnpackValue(w[1..]);
    }
  }

  lemma {:induction false} ValueUnpack(v: nat, n: nat)
    requires v < Power2(n)
    ensures Value(Unpack(v, n)) == v
  {
    if n > 0 {
      ValueUnpack(v / 2, n - 1);
      assert Unpack(v, n)[1..] == Unpack(v / 2, n - 1);
    }
  }

  lemma Power2Of32()
    ensures Power2(32) == 0x1_0000_0000
  {
    assert Power2(8) == 0x100;
    assert Power2(16) == 0x1_0000;
    assert Power2(24) == 0x100_0000;
  }

  lemma {:induction false} UnpackComplement(u: nat, v: nat, n: nat)
    requires u + v == Power2(n) - 1
    ensures Unpack(v, n) == Not(Unpack(u, n))
  {
    if n > 0 {
      UnpackComplement(u / 2, v / 2, n - 1);
    }
  }
}
