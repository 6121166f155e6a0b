/** GF(2^5) with primitive polynomial x^5 + x^2 + 1, as the FLEX decoder builds it:
    exponent and logarithm tables, and multiplication by adding logarithms.

    The partner of the table arithmetic is PolyMul, multiplication of polynomials modulo the
    primitive polynomial, bit by bit. From that agreement follow the field laws, and from
    the field laws the identities a two-error decoder rests on. */
module Gf32 {

  type Gf = bv5

  const ORDER := 31

  /** Addition of field elements: exclusive or of their bits. */
  function Add(a: Gf, b: Gf): Gf {
    a ^ b
  }

  /** Multiplication by the root alpha. */
  function XTime(a: Gf): Gf {
    if a & 0x10 != 0 then (a << 1) ^ 0x05 else a << 1
  }

  /** alpha to the power i. */
  function Alpha(i: nat): Gf {
    if i == 0 then 1 else XTime(Alpha(i - 1))
  }

  /** The logarithm of a to the base alpha; like the table, 0 at 0. */
  function Log(a: Gf): (i: nat)
    ensures i < ORDER
    ensures a != 0 ==> Alpha(i) == a
  {
    AlphaValues();
    LogFrom(a, 0)
  }

  function LogFrom(a: Gf, k: nat): (i: nat)
    requires k < ORDER
    requires a != 0 ==> exists j :: k <= j < ORDER && Alpha(j) == a
    ensures i < ORDER
    ensures a != 0 ==> Alpha(i) == a
    decreases ORDER - k
  {
    if a == 0 then 0 else if Alpha(k) == a then k else LogFrom(a, k + 1)
  }

  /** The first i entries of the exponent table and the logarithms of those powers. */
  ghost predicate TablesUpTo(exp: seq<Gf>, log: seq<nat>, i: nat) {
    && |exp| == 32 && |log| == 32 && log[0] == 0
    && (forall k :: 0 <= k < i < 32 ==> exp[k] == Alpha(k) && log[Alpha(k) as int] == k)
  }

  /** The module-level loop that fills the exponent and logarithm tables. */
  method BuildTables() returns (exp: seq<Gf>, log: seq<nat>)
    ensures |exp| == 32 && |log| == 32
    ensures forall i :: 0 <= i < 32 ==> exp[i] == Alpha(i)
    ensures forall a: Gf :: log[a as int] == Log(a)
  {
    exp := seq(32, _ => 0);
    log := seq(32, _ => 0);
    var val: bv6 := 1;
    var i := 0;
    while i < 31
      invariant 0 <= i <= 31
      invariant val < 32 && val as Gf == Alpha(i)
      invariant TablesUpTo(exp, log, i)
    {
      ExtendTables(exp, log, i);
      ShiftAndReduce(val);
      exp := exp[i := val as Gf];
      log := log[val as Gf as int := i];
      val := val << 1;
      if val & 0x20 != 0 {
        val := val ^ 0x25;
      }
      i := i + 1;
    }
    exp := exp[31 := exp[0]];
    AlphaPeriod(0);
    forall a: Gf ensures log[a as int] == Log(a) {
      LogEntry(exp, log, a);
    }
  }

  lemma ExtendTables(exp: seq<Gf>, log: seq<nat>, i: nat)
    requires i < 31 && TablesUpTo(exp, log, i)
    ensures TablesUpTo(exp[i := Alpha(i)], log[Alpha(i) as int := i], i + 1)
  {
    hide XTime, Alpha;
    AlphaNonzero(i);
    forall k | 0 <= k < i ensures Alpha(k) as int != Alpha(i) as int {
      AlphaInjective(k, i);
    }
  }

  lemma LogEntry(exp: seq<Gf>, log: seq<nat>, a: Gf)
    requires |exp| == 32 && |log| == 32 && log[0] == 0
    requires forall k :: 0 <= k < 31 ==> log[Alpha(k) as int] == k
    ensures log[a as int] == Log(a)
  {
    if a == 0 {
      LogZero();
    } else {
      assert a == Alpha(Log(a));
    }
  }

  /** One turn of the table loop: shift left, and reduce by 0x25 when a sixth bit appears. */
  lemma ShiftAndReduce(val: bv6)
    requires val < 32
    ensures var twice := val << 1;
      var next := if twice & 0x20 != 0 then twice ^ 0x25 else twice;
      next < 32 && next as Gf == XTime(val as Gf)
  {
  }

  /** Product by adding logarithms. */
  function GfMul(a: Gf, b: Gf): Gf {
    if a == 0 || b == 0 then 0 else Alpha((Log(a) + Log(b)) % ORDER)
  }

  function GfInv(a: Gf): Gf {
    if a == 0 then 0 else Alpha((ORDER - Log(a)) % ORDER)
  }

  function GfPow(a: Gf, n: nat): Gf {
    if a == 0 then 0 else Alpha((Log(a) * n) % ORDER)
  }

  /** Polynomial multiplication modulo x^5 + x^2 + 1, by shift and add. */
  function PolyMul(a: Gf, b: Gf): Gf {
    var b1 := XTime(b);
    var b2 := XTime(b1);
    var b3 := XTime(b2);
    var b4 := XTime(b3);
    Select(a, b, b1, b2, b3, b4)
  }

  function Pick(c: bool, v: Gf): Gf {
    if c then v else 0
  }

  /** The sum of those b's whose bit in a is set. */
  function Select(a: Gf, b0: Gf, b1: Gf, b2: Gf, b3: Gf, b4: Gf): Gf {
    Add(Add(Add(Add(Pick(a & 1 != 0, b0), Pick(a & 2 != 0, b1)), Pick(a & 4 != 0, b2)),
            Pick(a & 8 != 0, b3)), Pick(a & 16 != 0, b4))
  }

  // ---------------------------------------------------------------- powers of alpha

  lemma AlphaValues()
    ensures Alpha(0) == 1 && Alpha(1) == 2 && Alpha(2) == 4 && Alpha(3) == 8 && Alpha(4) == 16
    ensures Alpha(5) == 5 && Alpha(6) == 10 && Alpha(7) == 20 && Alpha(8) == 13 && Alpha(9) == 26
    ensures Alpha(10) == 17 && Alpha(11) == 7 && Alpha(12) == 14 && Alpha(13) == 28 && Alpha(14) == 29
    ensures Alpha(15) == 31 && Alpha(16) == 27 && Alpha(17) == 19 && Alpha(18) == 3 && Alpha(19) == 6
    ensures Alpha(20) == 12 && Alpha(21) == 24 && Alpha(22) == 21 && Alpha(23) == 15 && Alpha(24) == 30
    ensures Alpha(25) == 25 && Alpha(26) == 23 && Alpha(27) == 11 && Alpha(28) == 22 && Alpha(29) == 9
    ensures Alpha(30) == 18 && Alpha(31) == 1
  {
  }

  lemma {:induction false} AlphaNonzero(i: nat)
    ensures Alpha(i) != 0
  {
    if i > 0 {
      AlphaNonzero(i - 1);
    }
  }

  /** alpha has order 31: the powers of alpha repeat with that period. */
  lemma {:induction false} AlphaPeriod(i: nat)
    ensures Alpha(i + ORDER) == Alpha(i)
  {
    if i == 0 {
      AlphaValues();
    } else {
      AlphaPeriod(i - 1);
    }
  }

  lemma {:induction false} AlphaMod(i: nat)
    ensures Alpha(i % ORDER) == Alpha(i)
  {
    if i >= ORDER {
      AlphaMod(i - ORDER);
      AlphaPeriod(i - ORDER);
      assert i % ORDER == (i - ORDER) % ORDER;
    }
  }

  lemma LogZero()
    ensures Log(0) == 0
  {
  }

  lemma XTimeInjective(a: Gf, b: Gf)
    requires XTime(a) == XTime(b)
    ensures a == b
  {
  }

  /** alpha is primitive: its first 31 powers are distinct. */
  lemma {:induction false} AlphaInjective(i: nat, j: nat)
    requires i < j < ORDER
    ensures Alpha(i) != Alpha(j)
  {
    if i == 0 {
      AlphaValues();
      assert j < 8 || 8 <= j < 16 || 16 <= j < 24 || 24 <= j < 31;
    } else {
      AlphaInjective(i - 1, j - 1);
      if Alpha(i) == Alpha(j) {
        XTimeInjective(Alpha(i - 1), Alpha(j - 1));
      }
    }
  }

  /** Hence the logarithm inverts exponentiation. */
  lemma LogAlpha(i: nat)
    requires i < ORDER
    ensures Log(Alpha(i)) == i
  {
    AlphaNonzero(i);
    var j := Log(Alpha(i));
    if j < i {
      AlphaInjective(j, i);
    } else if i < j {
      AlphaInjective(i, j);
    }
  }

  // ---------------------------------------------------------------- multiplication

  lemma PolyMulXTime(a: Gf, b: Gf)
    ensures PolyMul(XTime(a), b) == XTime(PolyMul(a, b))
  {
    hide Add, XTime;
    var b1 := XTime(b);
    var b2 := XTime(b1);
    var b3 := XTime(b2);
    var b4 := XTime(b3);
    SelectedShifted(a, b, b1, b2, b3, b4);
    FiveShifts(b);
    ShiftSelects(a, b, b1, b2, b3, b4);
  }

  /** x^5 = x^2 + 1. */
  lemma FiveShifts(b: Gf)
    ensures XTime(XTime(XTime(XTime(XTime(b))))) == Add(b, XTime(XTime(b)))
  {
  }

  /** Shifting a sum shifts what is selected. */
  lemma SelectedShifted(a: Gf, b0: Gf, b1: Gf, b2: Gf, b3: Gf, b4: Gf)
    ensures XTime(Select(a, b0, b1, b2, b3, b4))
         == Select(a, XTime(b0), XTime(b1), XTime(b2), XTime(b3), XTime(b4))
  {
    hide XTime, Add;
    XTimeZero();
    XTimeAdds(Pick(a & 1 != 0, b0), Pick(a & 2 != 0, b1));
    XTimeAdds(Add(Pick(a & 1 != 0, b0), Pick(a & 2 != 0, b1)), Pick(a & 4 != 0, b2));
    var three := Add(Add(Pick(a & 1 != 0, b0), Pick(a & 2 != 0, b1)), Pick(a & 4 != 0, b2));
    XTimeAdds(three, Pick(a & 8 != 0, b3));
    XTimeAdds(Add(three, Pick(a & 8 != 0, b3)), Pick(a & 16 != 0, b4));
  }

  lemma XTimeZero()
    ensures XTime(0) == 0
  {
  }

  /** Selecting with the shifted word selects shifted. */
  lemma ShiftSelects(a: Gf, b0: Gf, b1: Gf, b2: Gf, b3: Gf, b4: Gf)
    ensures Select(XTime(a), b0, b1, b2, b3, b4) == Select(a, b1, b2, b3, b4, Add(b0, b2))
  {
    hide XTime, Add, Pick;
    XTimeBits(a);
    var (q, t) := (a & 2 != 0, a & 16 != 0);
    PickSums(q, t, b0, b2);
    Regroup(Pick(t, b0), Pick(a & 1 != 0, b1), Pick(q, b2), Pick(t, b2), Pick(a & 4 != 0, b3), Pick(a & 8 != 0, b4));
  }

  lemma PickSums(p: bool, q: bool, b: Gf, c: Gf)
    ensures Pick(p != q, c) == Add(Pick(p, c), Pick(q, c)) && Pick(q, Add(b, c)) == Add(Pick(q, b), Pick(q, c))
  {
  }

  lemma Regroup(u: Gf, v: Gf, w: Gf, x: Gf, y: Gf, z: Gf)
    ensures Add(Add(Add(Add(u, v), Add(w, x)), y), z) == Add(Add(Add(Add(v, w), y), z), Add(u, x))
  {
  }

  lemma XTimeBits(a: Gf)
    ensures var c := XTime(a);
      (c & 1 != 0 <==> a & 16 != 0) && (c & 2 != 0 <==> a & 1 != 0)
      && (c & 4 != 0 <==> (a & 2 != 0) != (a & 16 != 0)) && (c & 8 != 0 <==> a & 4 != 0)
      && (c & 16 != 0 <==> a & 8 != 0)
  {
  }

  lemma PolyMulUnits(b: Gf)
    ensures PolyMul(1, b) == b && PolyMul(0, b) == 0 && PolyMul(b, 0) == 0
  {
  }

  lemma {:induction false} PolyMulPowers(i: nat, j: nat)
    ensures PolyMul(Alpha(i), Alpha(j)) == Alpha(i + j)
  {
    hide PolyMul, XTime;
    if i == 0 {
      PolyMulUnits(Alpha(j));
    } else {
      PolyMulPowers(i - 1, j);
      PolyMulXTime(Alpha(i - 1), Alpha(j));
    }
  }

  /** The table product is the product of polynomials modulo x^5 + x^2 + 1. */
  lemma GfMulIsPolyMul(a: Gf, b: Gf)
    ensures GfMul(a, b) == PolyMul(a, b)
  {
    hide PolyMul, XTime, LogFrom;
    if a == 0 || b == 0 {
      PolyMulUnits(a);
      PolyMulUnits(b);
    } else {
      PolyMulPowers(Log(a), Log(b));
      AlphaMod(Log(a) + Log(b));
    }
  }

  // ---------------------------------------------------------------- field laws

  lemma XTimeAdds(a: Gf, b: Gf)
    ensures XTime(Add(a, b)) == Add(XTime(a), XTime(b))
  {
  }

  /** Multiplication by alpha, i times. */
  function XTimes(i: nat, b: Gf): Gf {
    if i == 0 then b else XTime(XTimes(i - 1, b))
  }

  lemma {:induction false} XTimesAdds(i: nat, b: Gf, c: Gf)
    ensures XTimes(i, Add(b, c)) == Add(XTimes(i, b), XTimes(i, c))
  {
    if i > 0 {
      XTimesAdds(i - 1, b, c);
      XTimeAdds(XTimes(i - 1, b), XTimes(i - 1, c));
    }
  }

  lemma {:induction false} XTimesPower(i: nat, j: nat)
    ensures XTimes(i, Alpha(j)) == Alpha(i + j)
  {
    if i > 0 {
      XTimesPower(i - 1, j);
    }
  }

  lemma {:induction false} XTimesZero(i: nat)
    ensures XTimes(i, 0) == 0
  {
    if i > 0 {
      XTimesZero(i - 1);
    }
  }

  /** Multiplying by a nonzero element is repeated multiplication by alpha. */
  lemma GfMulIsXTimes(a: Gf, b: Gf)
    requires a != 0
    ensures GfMul(a, b) == XTimes(Log(a), b)
  {
    if b == 0 {
      XTimesZero(Log(a));
    } else {
      XTimesPower(Log(a), Log(b));
      AlphaMod(Log(a) + Log(b));
    }
  }

  lemma MulComm(a: Gf, b: Gf)
    ensures GfMul(a, b) == GfMul(b, a)
  {
  }

  lemma MulNonzero(a: Gf, b: Gf)
    ensures GfMul(a, b) == 0 <==> a == 0 || b == 0
  {
    AlphaNonzero((Log(a) + Log(b)) % ORDER);
  }

  /** Powers of alpha multiply by adding exponents, reduced or not. */
  lemma MulPowers(i: nat, j: nat)
    ensures GfMul(Alpha(i), Alpha(j)) == Alpha(i + j)
  {
    hide XTime, Alpha, LogFrom, Log, GfMul, XTimes;
    AlphaNonzero(i);
    AlphaMod(i);
    AlphaNonzero(j);
    AlphaMod(j);
    GfMulIsXTimes(Alpha(i), Alpha(j));
    LogAlpha(i % ORDER);
    XTimesPower(i % ORDER, j);
    AlphaMod(i % ORDER + j);
    AlphaMod(i + j);
    ReduceFirst(i, j);
  }

  lemma ReduceFirst(i: nat, j: nat)
    ensures (i % ORDER + j) % ORDER == (i + j) % ORDER
  {
  }

  lemma MulAssoc(a: Gf, b: Gf, c: Gf)
    ensures GfMul(a, GfMul(b, c)) == GfMul(GfMul(a, b), c)
  {
    hide XTime, Alpha, LogFrom, Log;
    if a != 0 && b != 0 && c != 0 {
      MulPowers(Log(a), Log(b));
      MulPowers(Log(b), Log(c));
      MulPowers(Log(a), Log(b) + Log(c));
      MulPowers(Log(a) + Log(b), Log(c));
    }
  }

  lemma MulAdds(a: Gf, b: Gf, c: Gf)
    ensures GfMul(a, Add(b, c)) == Add(GfMul(a, b), GfMul(a, c))
  {
    if a != 0 {
      GfMulIsXTimes(a, b);
      GfMulIsXTimes(a, c);
      GfMulIsXTimes(a, Add(b, c));
      XTimesAdds(Log(a), b, c);
    }
  }

  lemma MulOne(a: Gf)
    ensures GfMul(1, a) == a
  {
    hide XTime, LogFrom, Log, GfMul;
    if a == 0 {
      MulNonzero(1, 0);
    } else {
      MulPowers(0, Log(a));
    }
  }

  lemma MulInverse(a: Gf)
    requires a != 0
    ensures GfMul(GfInv(a), a) == 1
  {
    hide XTime, Alpha, LogFrom, Log, GfMul;
    var k := (ORDER - Log(a)) % ORDER;
    MulPowers(k, Log(a));
    AlphaMod(k + Log(a));
    assert (k + Log(a)) % ORDER == 0;
    AlphaValues();
  }

  function Power(a: Gf, n: nat): Gf {
    if n == 0 then 1 else GfMul(a, Power(a, n - 1))
  }

  lemma {:induction false} PowerLog(a: Gf, n: nat)
    requires a != 0
    ensures Power(a, n) == Alpha(Log(a) * n)
  {
    hide XTime, Alpha, LogFrom, Log, GfMul;
    if n == 0 {
      AlphaValues();
    } else {
      PowerLog(a, n - 1);
      MulPowers(Log(a), Log(a) * (n - 1));
      assert Log(a) * n == Log(a) + Log(a) * (n - 1);
    }
  }

  /** The table power is iterated multiplication except at 0 to the 0, where the code
      answers 0. */
  lemma GfPowIsPower(a: Gf, n: nat)
    ensures GfPow(a, n) == Power(a, n) <==> a != 0 || n != 0
  {
    hide XTime, LogFrom, Log;
    if a != 0 {
      PowerLog(a, n);
      AlphaMod(Log(a) * n);
    }
  }

  // ---------------------------------------------------------------- two-error identities

  function Cube(a: Gf): Gf {
    GfMul(a, GfMul(a, a))
  }

  lemma AddRules(a: Gf, b: Gf, c: Gf)
    ensures Add(a, b) == Add(b, a) && Add(a, Add(b, c)) == Add(Add(a, b), c)
    ensures Add(a, 0) == a && Add(a, a) == 0
  {
  }

  lemma AddZero(a: Gf, b: Gf)
    ensures Add(a, b) == 0 <==> a == b
  {
  }

  lemma MulAddsLeft(a: Gf, b: Gf, c: Gf)
    ensures GfMul(Add(a, b), c) == Add(GfMul(a, c), GfMul(b, c))
  {
    hide GfMul, Add;
    MulAdds(c, a, b);
    MulComm(Add(a, b), c);
    MulComm(a, c);
    MulComm(b, c);
  }

  /** Squaring is additive in characteristic two. */
  lemma SquareAdds(a: Gf, b: Gf)
    ensures GfMul(Add(a, b), Add(a, b)) == Add(GfMul(a, a), GfMul(b, b))
  {
    hide GfMul, Add;
    MulAddsLeft(a, b, Add(a, b));
    MulAdds(a, a, b);
    MulAdds(b, a, b);
    MulComm(a, b);
    var aa, ab, bb := GfMul(a, a), GfMul(a, b), GfMul(b, b);
    AddRules(aa, ab, Add(ab, bb));
    AddRules(ab, ab, bb);
    AddRules(0, bb, bb);
    AddRules(bb, 0, 0);
  }

  /** The second syndrome of two errors, in terms of their sum s and product p:
      x^3 + y^3 = s (s^2 + p). */
  lemma SumOfCubes(x: Gf, y: Gf)
    ensures Add(Cube(x), Cube(y)) == GfMul(Add(x, y), Add(GfMul(Add(x, y), Add(x, y)), GfMul(x, y)))
  {
    hide GfMul, Add;
    SquareAdds(x, y);
    var xx, xy, yy := GfMul(x, x), GfMul(x, y), GfMul(y, y);
    var q := Add(Add(xx, yy), xy);
    MulAddsLeft(x, y, q);
    MulAdds(x, Add(xx, yy), xy);
    MulAdds(x, xx, yy);
    MulAdds(y, Add(xx, yy), xy);
    MulAdds(y, xx, yy);
    // the mixed terms x y^2 and x^2 y each occur twice
    MulComm(x, y);
    MulAssoc(x, y, y);
    MulAssoc(x, x, y);
    MulAssoc(y, x, x);
    MulAssoc(y, x, y);
    MulComm(GfMul(x, y), y);
    MulComm(GfMul(x, y), x);
    CancelMixed(GfMul(x, xx), GfMul(y, yy), GfMul(x, yy), GfMul(y, xx));
  }

  lemma CancelMixed(xxx: Gf, yyy: Gf, xyy: Gf, yxx: Gf)
    ensures Add(Add(Add(xxx, xyy), yxx), Add(Add(yxx, yyy), xyy)) == Add(xxx, yyy)
  {
  }

  lemma PowersTwoAndThree(a: Gf)
    ensures GfPow(a, 2) == GfMul(a, a) && GfPow(a, 3) == Cube(a)
  {
    GfPowIsPower(a, 2);
    GfPowIsPower(a, 3);
    hide GfMul, GfPow;
    MulOne(a);
    MulComm(a, 1);
    assert Power(a, 1) == GfMul(a, 1);
    assert Power(a, 2) == GfMul(a, Power(a, 1));
    assert Power(a, 3) == GfMul(a, Power(a, 2));
  }

  lemma MulCancels(s: Gf, u: Gf, v: Gf)
    requires s != 0 && GfMul(s, u) == GfMul(s, v)
    ensures u == v
  {
    hide GfMul;
    MulAdds(s, u, v);
    AddZero(GfMul(s, u), GfMul(s, v));
    MulNonzero(s, Add(u, v));
    AddZero(u, v);
  }

  /** (t + x)(t + y) = t^2 + (x + y) t + x y. */
  lemma Factors(t: Gf, x: Gf, y: Gf)
    ensures GfMul(Add(t, x), Add(t, y))
         == Add(Add(GfMul(t, t), GfMul(Add(x, y), t)), GfMul(x, y))
  {
    hide GfMul, Add;
    MulAddsLeft(t, x, Add(t, y));
    MulAdds(t, t, y);
    MulAdds(x, t, y);
    MulAddsLeft(x, y, t);
    MulComm(t, y);
    RegroupProduct(GfMul(t, t), GfMul(y, t), GfMul(x, t), GfMul(x, y));
  }

  lemma RegroupProduct(tt: Gf, yt: Gf, xt: Gf, xy: Gf)
    ensures Add(Add(tt, yt), Add(xt, xy)) == Add(Add(tt, Add(xt, yt)), xy)
  {
  }

  /** The error-locator polynomial of the decoder. */
  function Locator(s: Gf, c: Gf, t: Gf): Gf {
    Add(Add(GfMul(t, t), GfMul(s, t)), c)
  }

  /** Its roots are exactly the two locators it was built from. */
  lemma LocatorRoots(x: Gf, y: Gf, t: Gf)
    ensures Locator(Add(x, y), GfMul(x, y), t) == 0 <==> t == x || t == y
  {
    hide GfMul, Add;
    Factors(t, x, y);
    MulNonzero(Add(t, x), Add(t, y));
    AddZero(t, x);
    AddZero(t, y);
  }

  /** Conversely two distinct roots have sum s and product c. */
  lemma RootsDetermine(s: Gf, c: Gf, x: Gf, y: Gf)
    requires x != y && Locator(s, c, x) == 0 && Locator(s, c, y) == 0
    ensures Add(x, y) == s && GfMul(x, y) == c
  {
    hide GfMul, Add;
    AddZero(Add(GfMul(x, x), GfMul(s, x)), c);
    AddZero(Add(GfMul(y, y), GfMul(s, y)), c);
    var d := Add(x, y);
    AddZero(x, y);
    // x^2 + y^2 = s x + s y, that is, d d = s d
    SquareAdds(x, y);
    MulAdds(s, x, y);
    SwapSides(GfMul(x, x), GfMul(s, x), GfMul(y, y), GfMul(s, y));
    MulComm(s, d);
    MulCancels(d, d, s);
    // and c = x^2 + s x = x^2 + x^2 + x y
    MulAddsLeft(x, y, x);
    MulComm(x, y);
    AddRules(GfMul(x, x), GfMul(x, x), GfMul(x, y));
    AddRules(0, GfMul(x, y), 0);
    AddRules(GfMul(x, y), 0, 0);
  }

  lemma SwapSides(a: Gf, b: Gf, c: Gf, d: Gf)
    ensures Add(a, b) == Add(c, d) ==> Add(a, c) == Add(b, d)
  {
  }

  /** What the decoder computes from the syndromes of two distinct errors: both syndromes are
      nonzero, the second is not the cube of the first, and s3/s1 + s1^2 is the product of
      the two locators. */
  lemma TwoErrorSyndromes(x: Gf, y: Gf)
    requires x != 0 && y != 0 && x != y
    ensures var s1 := Add(x, y);
      var s3 := Add(Cube(x), Cube(y));
      && s1 != 0 && s3 != 0 && s3 != Cube(s1) && GfMul(x, y) != 0
      && Add(GfMul(s3, GfInv(s1)), GfMul(s1, s1)) == GfMul(x, y)
  {
    hide GfMul, GfInv, Add;
    var s1, p := Add(x, y), GfMul(x, y);
    var q := Add(GfMul(s1, s1), p);
    AddZero(x, y);
    MulNonzero(x, y);
    SumOfCubes(x, y);
    ProductFromSyndromes(s1, p);
    MulAdds(s1, GfMul(s1, s1), p);
    MulNonzero(s1, p);
    AddsNothing(Cube(s1), GfMul(s1, p));
    MulNonzero(s1, q);
    AddZero(Cube(x), Cube(y));
    AddZero(GfMul(s1, s1), p);
    // q = x^2 + y^2 + xy vanishes only when x^3 = y^3
    if q == 0 {
      CubeInjective(x, y);
      assert false;
    }
  }

  lemma AddsNothing(a: Gf, b: Gf)
    ensures Add(a, b) == a <==> b == 0
  {
  }

  /** Dividing s1 (s1^2 + p) by s1 and adding s1^2 leaves p. */
  lemma ProductFromSyndromes(s1: Gf, p: Gf)
    requires s1 != 0
    ensures Add(GfMul(GfMul(s1, Add(GfMul(s1, s1), p)), GfInv(s1)), GfMul(s1, s1)) == p
  {
    hide GfMul, GfInv, Add;
    var q := Add(GfMul(s1, s1), p);
    MulComm(GfMul(s1, q), GfInv(s1));
    MulAssoc(GfInv(s1), s1, q);
    MulInverse(s1);
    MulOne(q);
    AddRules(q, GfMul(s1, s1), 0);
    AddRules(GfMul(s1, s1), GfMul(s1, s1), p);
    AddRules(0, p, 0);
    AddRules(p, 0, 0);
  }

  /** Three is prime to 31, so cubing is one to one. */
  lemma CubeInjective(x: Gf, y: Gf)
    requires Cube(x) == Cube(y)
    ensures x == y
  {
    hide XTime, Alpha, Log, LogFrom;
    PowersTwoAndThree(x);
    PowersTwoAndThree(y);
    if x == 0 || y == 0 {
      MulNonzero(x, GfMul(x, x));
      MulNonzero(x, x);
      MulNonzero(y, GfMul(y, y));
      MulNonzero(y, y);
    } else {
      LogAlpha((Log(x) * 3) % ORDER);
      LogAlpha((Log(y) * 3) % ORDER);
      TripleInjective(Log(x), Log(y));
    }
  }

  lemma TripleInjective(i: nat, j: nat)
    requires i < ORDER && j < ORDER && (i * 3) % ORDER == (j * 3) % ORDER
    ensures i == j
  {
  }

  /** Four locators (0 standing for no error) whose sum and sum of cubes vanish cancel in
      pairs: the code that has these syndromes has distance five. */
  lemma FourLocators(x: Gf, y: Gf, z: Gf, w: Gf)
    requires Add(Add(x, y), Add(z, w)) == 0
    requires Add(Add(Cube(x), Cube(y)), Add(Cube(z), Cube(w))) == 0
    ensures (x == y && z == w) || (x == z && y == w) || (x == w && y == z)
  {
    hide GfMul, Add;
    var s := Add(x, y);
    AddZero(s, Add(z, w));
    AddZero(Add(Cube(x), Cube(y)), Add(Cube(z), Cube(w)));
    AddZero(x, y);
    AddZero(z, w);
    if s != 0 {
      SumOfCubes(x, y);
      SumOfCubes(z, w);
      var sq := GfMul(s, s);
      MulCancels(s, Add(sq, GfMul(x, y)), Add(sq, GfMul(z, w)));
      AddCancels(sq, GfMul(x, y), GfMul(z, w));
      LocatorRoots(x, y, x);
      LocatorRoots(z, w, x);
      LocatorRoots(x, y, y);
      LocatorRoots(z, w, y);
    }
  }

  lemma AddCancels(a: Gf, b: Gf, c: Gf)
    requires Add(a, b) == Add(a, c)
    ensures b == c
  {
  }
}
