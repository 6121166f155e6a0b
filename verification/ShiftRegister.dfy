/** The shift register both cyclic codes are computed with: one step of division of a bit string by
    a polynomial of the register's width. */
module ShiftRegister {
  import opened Words

  /** Brings down a bit, and subtracts the divisor if its leading term fits. */
  function Shift(poly: Bits, reg: Bits, bit: bool): (r: Bits)
    requires |poly| == |reg| >= 1
    ensures |r| == |reg|
  {
    var n := |reg| - 1;
    var s := [bit] + reg[..n];
    if reg[n] then Xor(s, poly) else s
  }

  lemma ShiftBit(poly: Bits, reg: Bits, bit: bool, k: nat)
    requires |poly| == |reg| && k < |reg|
    ensures Shift(poly, reg, bit)[k] == ((if k == 0 then bit else reg[k - 1]) != (reg[|reg| - 1] && poly[k]))
  {
    var s := [bit] + reg[..|reg| - 1];
    assert s[k] == if k == 0 then bit else reg[k - 1];
    assert Xor(s, poly)[k] == (s[k] != poly[k]);
  }

  /** A step is linear. */
  lemma ShiftSum(poly: Bits, a: Bits, p: bool, b: Bits, q: bool)
    requires |poly| == |a| == |b| >= 1
    ensures Shift(poly, Xor(a, b), p != q) == Xor(Shift(poly, a, p), Shift(poly, b, q))
  {
    hide Shift;
    var sum, parts := Shift(poly, Xor(a, b), p != q), Xor(Shift(poly, a, p), Shift(poly, b, q));
    forall k | 0 <= k < |a| ensures sum[k] == parts[k] {
      ShiftBit(poly, a, p, k);
      ShiftBit(poly, b, q, k);
      ShiftBit(poly, Xor(a, b), p != q, k);
    }
  }

  /** And one to one, if the divisor has constant term 1. */
  lemma ShiftOneToOne(poly: Bits, a: Bits, b: Bits)
    requires |poly| == |a| == |b| >= 1 && poly[0] && Shift(poly, a, false) == Shift(poly, b, false)
    ensures a == b
  {
    hide Shift;
    ShiftBit(poly, a, false, 0);
    ShiftBit(poly, b, false, 0);
    forall k | 0 <= k < |a| ensures a[k] == b[k] {
      if k + 1 < |a| {
        ShiftBit(poly, a, false, k + 1);
        ShiftBit(poly, b, false, k + 1);
      }
    }
  }
}
