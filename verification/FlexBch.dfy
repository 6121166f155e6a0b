/** The BCH(31,21) decoder of the FLEX pager: syndromes, correction of up to two errors, and
    the overall parity bit.

    A codeword is 32 bits: bit 0 is the even parity bit, bit i > 0 has locator alpha^(i-1).
    The code's own promise is stated without reference to how it decodes: AcceptsExactly
    says which words are accepted and as what, for every 32-bit input. */
module FlexBch {
  import opened Gf32
  import opened Words

  type Word = w: Bits | |w| == 32 witness seq(32, _ => false)
  type Position = p: nat | p < 32

  // ---------------------------------------------------------------- the decoder

  /** Contribution of bits i..31 to the syndrome at alpha^k. */
  function SyndromeFrom(w: Word, k: nat, i: nat): Gf
    requires 1 <= i <= 32
    decreases 32 - i
  {
    if i == 32 then 0
    else Add(if w[i] then Alpha(((i - 1) * k) % ORDER) else 0, SyndromeFrom(w, k, i + 1))
  }

  function Syndrome(w: Word, k: nat): Gf {
    SyndromeFrom(w, k, 1)
  }

  method BchSyndrome(codeword: Word) returns (s1: Gf, s3: Gf)
    ensures s1 == Syndrome(codeword, 1) && s3 == Syndrome(codeword, 3)
  {
    hide Alpha, Add, SyndromeFrom;
    s1, s3 := 0, 0;
    NoBitsYet(codeword);
    var i := 31;
    while i > 0
      invariant 0 <= i <= 31
      invariant s1 == SyndromeFrom(codeword, 1, i + 1) && s3 == SyndromeFrom(codeword, 3, i + 1)
    {
      OneMoreBit(codeword, i);
      if codeword[i] {
        s1 := Add(Alpha(i - 1), s1);
        s3 := Add(Alpha(((i - 1) * 3) % 31), s3);
      }
      i := i - 1;
    }
  }

  lemma NoBitsYet(w: Word)
    ensures SyndromeFrom(w, 1, 32) == 0 && SyndromeFrom(w, 3, 32) == 0
  {
  }

  lemma OneMoreBit(w: Word, i: nat)
    requires 1 <= i <= 31
    ensures SyndromeFrom(w, 1, i) ==
      if w[i] then Add(Alpha(i - 1), SyndromeFrom(w, 1, i + 1)) else SyndromeFrom(w, 1, i + 1)
    ensures SyndromeFrom(w, 3, i) ==
      if w[i] then Add(Alpha(((i - 1) * 3) % 31), SyndromeFrom(w, 3, i + 1)) else SyndromeFrom(w, 3, i + 1)
  {
    hide Alpha, Add;
    AddNothing(SyndromeFrom(w, 1, i + 1));
    AddNothing(SyndromeFrom(w, 3, i + 1));
    assert ((i - 1) * 1) % ORDER == i - 1;
  }

  lemma AddNothing(a: Gf)
    ensures Add(0, a) == a
  {
  }

  predicate IsRoot(s1: Gf, c: Gf, t: Gf) {
    Add(Add(GfPow(t, 2), GfMul(s1, t)), c) == 0
  }

  /** The nonzero field elements below x that satisfy the locator equation, in order. */
  function RootsBelow(s1: Gf, c: Gf, x: nat): seq<Gf>
    requires 1 <= x <= 32
  {
    if x == 1 then []
    else RootsBelow(s1, c, x - 1) + (if IsRoot(s1, c, Element(x - 1)) then [Element(x - 1)] else [])
  }

  function Element(x: nat): Gf
    requires x < 32
  {
    x as Gf
  }

  function FlipAt(w: Word, r: Gf): Word {
    Flip(w, Log(r) + 1)
  }

  function FlipAll(w: Word, roots: seq<Gf>): Word
    decreases |roots|
  {
    if roots == [] then w else FlipAll(FlipAt(w, roots[0]), roots[1..])
  }

  /** What BchCorrect computes. */
  function Corrected(w: Word): (Word, bool) {
    var s1, s3 := Syndrome(w, 1), Syndrome(w, 3);
    if s1 == 0 && s3 == 0 then (w, EvenParity(w))
    else if s1 == 0 || s3 == 0 then (w, false)
    else if s3 == GfPow(s1, 3) then
      var v := FlipAt(w, s1);
      (v, EvenParity(v))
    else
      var c := Add(GfMul(s3, GfInv(s1)), GfPow(s1, 2));
      var roots := RootsBelow(s1, c, 32);
      if c == 0 || |roots| != 2 then (w, false)
      else
        var v := FlipAll(w, roots);
        (v, EvenParity(v))
  }

  method FindRoots(s1: Gf, c: Gf) returns (roots: seq<Gf>)
    ensures roots == RootsBelow(s1, c, 32)
  {
    hide IsRoot, Element;
    roots := [];
    for x := 1 to 32
      invariant roots == RootsBelow(s1, c, x)
    {
      if IsRoot(s1, c, Element(x)) {
        roots := roots + [Element(x)];
      }
    }
  }

  method FlipRoots(codeword: Word, roots: seq<Gf>) returns (corrected: Word)
    ensures corrected == FlipAll(codeword, roots)
  {
    hide Log;
    corrected := codeword;
    for i := 0 to |roots|
      invariant FlipAll(codeword, roots) == FlipAll(corrected, roots[i..])
    {
      corrected := Flip(corrected, Log(roots[i]) + 1);
      assert roots[i..][1..] == roots[i + 1..];
    }
  }

  method BchCorrect(codeword: Word) returns (corrected: Word, ok: bool)
    ensures (corrected, ok) == Corrected(codeword)
  {
    hide Log, GfMul, GfPow, GfInv, Add, Weight, RootsBelow, FlipAll;
    corrected := codeword;
    var s1, s3 := BchSyndrome(codeword);
    if s1 == 0 && s3 == 0 {
      return corrected, EvenParity(corrected);
    }
    if s1 == 0 || s3 == 0 {
      return corrected, false;
    }
    if s3 == GfPow(s1, 3) {
      var pos := Log(s1);
      corrected := Flip(corrected, pos + 1);
      return corrected, EvenParity(corrected);
    }
    var c := Add(GfMul(s3, GfInv(s1)), GfPow(s1, 2));
    if c == 0 {
      return corrected, false;
    }
    var roots := FindRoots(s1, c);
    if |roots| != 2 {
      return corrected, false;
    }
    corrected := FlipRoots(corrected, roots);
    ok := EvenParity(corrected);
  }

  // ---------------------------------------------------------------- syndromes of errors

  /** A transmitted word: both syndromes vanish and the overall parity is even. */
  ghost predicate IsCodeword(w: Word) {
    Syndrome(w, 1) == 0 && Syndrome(w, 3) == 0 && EvenParity(w)
  }

  /** Locator of a bit; the parity bit has none. */
  function Locate(p: nat): Gf
    requires p < 32
  {
    if p == 0 then 0 else Alpha(p - 1)
  }

  lemma LocateRules(p: nat)
    requires 1 <= p < 32
    ensures Locate(p) != 0 && Log(Locate(p)) == p - 1
    ensures Cube(Locate(p)) == Alpha(((p - 1) * 3) % ORDER)
  {
    hide XTime, LogFrom, Log;
    AlphaNonzero(p - 1);
    LogAlpha(p - 1);
    PowersTwoAndThree(Alpha(p - 1));
  }

  lemma LocateInjective(p: nat, q: nat)
    requires p < 32 && q < 32 && Locate(p) == Locate(q)
    ensures p == q
  {
    if p > 0 {
      LocateRules(p);
    }
    if q > 0 {
      LocateRules(q);
    }
  }

  lemma {:induction false} SyndromeFromFlip(w: Word, p: nat, k: nat, i: nat)
    requires p < 32 && 1 <= i <= 32
    ensures SyndromeFrom(Flip(w, p), k, i) ==
      if p < i then SyndromeFrom(w, k, i)
      else Add(SyndromeFrom(w, k, i), Alpha(((p - 1) * k) % ORDER))
    decreases 32 - i
  {
    hide XTime, Alpha, Add;
    if i < 32 {
      SyndromeFromFlip(w, p, k, i + 1);
      var rest := SyndromeFrom(w, k, i + 1);
      var a := Alpha(((p - 1) * k) % ORDER);
      var b := Alpha(((i - 1) * k) % ORDER);
      AddTwice(a, rest);
      AddSwap(if w[i] then b else 0, rest, a);
    }
  }

  lemma AddTwice(a: Gf, b: Gf)
    ensures Add(Add(a, b), a) == Add(0, b) && Add(a, b) == Add(Add(0, b), a)
  {
  }

  lemma AddSwap(a: Gf, b: Gf, c: Gf)
    ensures Add(a, Add(b, c)) == Add(Add(a, b), c)
  {
  }

  lemma CubeZero()
    ensures Cube(0) == 0
  {
  }

  /** Flipping bit p adds its locator to the first syndrome and its cube to the third. */
  lemma SyndromeFlip(w: Word, p: nat)
    requires p < 32
    ensures Syndrome(Flip(w, p), 1) == Add(Syndrome(w, 1), Locate(p))
    ensures Syndrome(Flip(w, p), 3) == Add(Syndrome(w, 3), Cube(Locate(p)))
  {
    hide Alpha, Log, Add, Cube, SyndromeFrom;
    SyndromeFromFlip(w, p, 1, 1);
    SyndromeFromFlip(w, p, 3, 1);
    if p == 0 {
      CubeZero();
      AddRules(Syndrome(w, 1), 0, 0);
      AddRules(Syndrome(w, 3), 0, 0);
    } else {
      LocateRules(p);
    }
  }

  // ---------------------------------------------------------------- at most two errors are corrected

  lemma OneError(w: Word, p: nat)
    requires IsCodeword(w) && 1 <= p < 32
    ensures Corrected(Flip(w, p)) == (w, true)
  {
    hide Log, GfMul, GfInv, Add, Alpha, RootsBelow, Weight;
    SyndromeFlip(w, p);
    LocateRules(p);
    AddRules(0, Locate(p), 0);
    AddRules(Locate(p), 0, 0);
    AddRules(0, Cube(Locate(p)), 0);
    AddRules(Cube(Locate(p)), 0, 0);
    PowersTwoAndThree(Locate(p));
    MulNonzero(Locate(p), Locate(p));
    MulNonzero(Locate(p), GfMul(Locate(p), Locate(p)));
    assert Flip(Flip(w, p), p) == w;
  }

  /** If the locator equation holds of exactly two elements, the search finds just those. */
  lemma {:induction false} RootsAreTwo(s1: Gf, c: Gf, lo: nat, hi: nat, x: nat)
    requires 1 <= lo < hi < 32 && 1 <= x <= 32
    requires forall t: nat :: 1 <= t < 32 ==> (IsRoot(s1, c, Element(t)) <==> t == lo || t == hi)
    ensures RootsBelow(s1, c, x) ==
      if x <= lo then [] else if x <= hi then [Element(lo)] else [Element(lo), Element(hi)]
  {
    hide IsRoot, Element;
    if x > 1 {
      RootsAreTwo(s1, c, lo, hi, x - 1);
    }
  }

  lemma ElementInt(a: Gf)
    requires a != 0
    ensures 1 <= a as int < 32 && Element(a as int) == a
  {
  }

  lemma ElementInjective(i: nat, j: nat)
    requires i < 32 && j < 32 && Element(i) == Element(j)
    ensures i == j
  {
    hide Element;
    ElementValue(i);
    ElementValue(j);
  }

  lemma IsRootLocator(s1: Gf, c: Gf, t: Gf)
    ensures IsRoot(s1, c, t) <==> Locator(s1, c, t) == 0
  {
    hide GfMul, GfPow, Add;
    PowersTwoAndThree(t);
  }

  /** The search run on the sum and the product of two locators returns them. */
  lemma RootsOfTwoErrors(x: Gf, y: Gf)
    requires x != 0 && y != 0 && x as int < y as int
    ensures RootsBelow(Add(x, y), GfMul(x, y), 32) == [x, y]
  {
    hide IsRoot, Element, GfMul, Add, RootsBelow;
    var s, c := Add(x, y), GfMul(x, y);
    ElementInt(x);
    ElementInt(y);
    forall t: nat | 1 <= t < 32 ensures IsRoot(s, c, Element(t)) <==> t == x as int || t == y as int {
      IsRootLocator(s, c, Element(t));
      LocatorRoots(x, y, Element(t));
      if Element(t) == x {
        ElementInjective(t, x as int);
      }
      if Element(t) == y {
        ElementInjective(t, y as int);
      }
    }
    RootsAreTwo(s, c, x as int, y as int, 32);
  }

  lemma DistinctInts(x: Gf, y: Gf)
    requires x != y
    ensures x as int != y as int
  {
  }

  lemma TwoErrors(w: Word, p: nat, q: nat)
    requires IsCodeword(w) && 1 <= p < 32 && 1 <= q < 32 && Locate(p) as int < Locate(q) as int
    ensures Corrected(Flip(Flip(w, p), q)) == (w, true)
  {
    hide Log, GfMul, GfInv, GfPow, Cube, Add, Alpha, RootsBelow, Weight, SyndromeFrom, Locate;
    var x, y := Locate(p), Locate(q);
    SyndromeFlip(w, p);
    SyndromeFlip(Flip(w, p), q);
    LocateRules(p);
    LocateRules(q);
    AddRules(0, x, 0);
    AddRules(x, 0, 0);
    AddRules(0, Cube(x), 0);
    AddRules(Cube(x), 0, 0);
    TwoErrorSyndromes(x, y);
    PowersTwoAndThree(Add(x, y));
    RootsOfTwoErrors(x, y);
    assert p != q;
    var e := Flip(Flip(w, p), q);
    assert FlipAll(e, [x, y]) == Flip(Flip(e, p), q) by {
      assert [x, y][1..] == [y];
      assert FlipAll(e, [x, y]) == FlipAll(FlipAt(e, x), [y]);
      assert FlipAll(FlipAt(e, x), [y]) == FlipAll(FlipAt(FlipAt(e, x), y), []);
    }
    assert Flip(Flip(e, p), q) == w;
  }

  /** Completeness: every pattern of at most two errors in bits 1..31 is removed. */
  lemma CorrectsTwo(w: Word, e: Word)
    requires IsCodeword(w) && !e[0] && Weight(e) <= 2
    ensures Corrected(Xor(w, e)) == (w, true)
  {
    hide Corrected, IsCodeword, Weight, Xor;
    if Weight(e) == 0 {
      XorNothing(w, e);
      assert Corrected(w) == (w, true) by { NoError(w); }
    } else {
      var p := SomeOne(e);
      var f := e[p := false];
      XorFlip(w, e, p);
      if Weight(e) == 1 {
        XorNothing(w, f);
        OneError(w, p);
      } else {
        var q := SomeOne(f);
        XorFlip(w, f, q);
        XorNothing(w, f[q := false]);
        if Locate(p) == Locate(q) {
          LocateInjective(p, q);
        }
        DistinctInts(Locate(p), Locate(q));
        if Locate(p) as int < Locate(q) as int {
          TwoErrors(w, p, q);
          assert Flip(Flip(w, p), q) == Flip(Flip(w, q), p);
        } else {
          TwoErrors(w, q, p);
        }
      }
    }
  }

  lemma NoError(w: Word)
    requires IsCodeword(w)
    ensures Corrected(w) == (w, true)
  {
  }

  // ---------------------------------------------------------------- what is accepted

  /** Soundness: an accepted word is a codeword that differs from the input in at most two
      bits, none of them the parity bit. */
  lemma AcceptedIsNearCodeword(w: Word)
    requires Corrected(w).1
    ensures var c := Corrected(w).0;
      IsCodeword(c) && c[0] == w[0] && Weight(Xor(w, c)) <= 2
  {
    hide Log, GfMul, GfInv, GfPow, Cube, Add, Alpha, RootsBelow, Weight, SyndromeFrom, FlipAll, Xor;
    var s1, s3 := Syndrome(w, 1), Syndrome(w, 3);
    if s1 == 0 && s3 == 0 {
      XorSelf(w, w);
    } else if s3 == GfPow(s1, 3) {
      FlipLocator(w, s1);
      PowersTwoAndThree(s1);
      AddRules(s1, 0, 0);
      AddRules(s3, 0, 0);
      FlipDistance(w, Log(s1) + 1);
    } else {
      var c := Add(GfMul(s3, GfInv(s1)), GfPow(s1, 2));
      var roots := RootsBelow(s1, c, 32);
      RootsAreRoots(s1, c, 32);
      var x, y := roots[0], roots[1];
      assert x in roots && y in roots && x != y;
      IsRootLocator(s1, c, x);
      IsRootLocator(s1, c, y);
      RootsDetermine(s1, c, x, y);
      var v := FlipAt(w, x);
      FlipLocator(w, x);
      FlipLocator(v, y);
      TwoFlips(w, roots);
      AddRules(s1, x, y);
      AddRules(s1, 0, 0);
      AddRules(s3, Cube(x), Cube(y));
      AddRules(s3, 0, 0);
      SyndromeFromProduct(s1, s3, x, y, c);
      FlipDistance2(w, Log(x) + 1, Log(y) + 1);
    }
  }

  lemma TwoFlips(w: Word, roots: seq<Gf>)
    requires |roots| == 2
    ensures FlipAll(w, roots) == FlipAt(FlipAt(w, roots[0]), roots[1])
  {
    hide FlipAt;
    assert roots[1..][0] == roots[1];
    assert FlipAll(w, roots) == FlipAll(FlipAt(w, roots[0]), roots[1..]);
    assert roots[1..][1..] == [];
    assert FlipAll(FlipAt(w, roots[0]), roots[1..])
        == FlipAll(FlipAt(FlipAt(w, roots[0]), roots[1]), []);
  }

  /** Flipping the bit an element locates adds that element to the first syndrome. */
  lemma FlipLocator(w: Word, r: Gf)
    requires r != 0
    ensures Syndrome(FlipAt(w, r), 1) == Add(Syndrome(w, 1), r)
    ensures Syndrome(FlipAt(w, r), 3) == Add(Syndrome(w, 3), Cube(r))
  {
    hide Add, Cube, Syndrome, XTime;
    SyndromeFlip(w, Log(r) + 1);
    assert Locate(Log(r) + 1) == r;
  }

  lemma FlipDistance(w: Word, p: nat)
    requires p < 32
    ensures Weight(Xor(w, Flip(w, p))) <= 2
  {
    var e := Xor(w, Flip(w, p));
    WeightUpdate(e, p, false);
    WeightZero(e[p := false]);
  }

  lemma FlipDistance2(w: Word, p: nat, q: nat)
    requires p < 32 && q < 32
    ensures Weight(Xor(w, Flip(Flip(w, p), q))) <= 2
  {
    var e := Xor(w, Flip(Flip(w, p), q));
    WeightUpdate(e, p, false);
    WeightUpdate(e[p := false], q, false);
    WeightZero(e[p := false][q := false]);
  }

  /** Nonzero roots below x, none of them twice. */
  ghost predicate DistinctRoots(s1: Gf, c: Gf, roots: seq<Gf>, x: nat) {
    && (forall r :: r in roots ==> IsRoot(s1, c, r) && r != 0 && r as int < x)
    && (forall i, j :: 0 <= i < j < |roots| ==> roots[i] != roots[j])
  }

  lemma {:induction false} RootsAreRoots(s1: Gf, c: Gf, x: nat)
    requires 1 <= x <= 32
    ensures DistinctRoots(s1, c, RootsBelow(s1, c, x), x)
  {
    hide IsRoot, Element;
    if x > 1 {
      RootsAreRoots(s1, c, x - 1);
      ElementValue(x - 1);
    }
  }

  lemma ElementValue(x: nat)
    requires x < 32
    ensures Element(x) as int == x && (x > 0 ==> Element(x) != 0)
  {
    assert (x as Gf) as int == x;
  }

  /** When x + y = s1 and x y = s3/s1 + s1^2, the cubes of x and y add up to s3. */
  lemma SyndromeFromProduct(s1: Gf, s3: Gf, x: Gf, y: Gf, c: Gf)
    requires s1 != 0 && Add(x, y) == s1 && GfMul(x, y) == c
    requires c == Add(GfMul(s3, GfInv(s1)), GfPow(s1, 2))
    ensures Add(Cube(x), Cube(y)) == s3
  {
    hide GfMul, GfPow, GfInv, Add;
    PowersTwoAndThree(s1);
    SumOfCubes(x, y);
    var sq, t := GfMul(s1, s1), GfMul(s3, GfInv(s1));
    AddRules(sq, t, 0);
    AddRules(sq, sq, t);
    AddRules(0, t, 0);
    AddRules(t, 0, 0);
    MulComm(s1, t);
    MulComm(s3, GfInv(s1));
    MulAssoc(GfInv(s1), s1, s3);
    MulComm(GfInv(s1), s3);
    MulAssoc(s3, GfInv(s1), s1);
    MulInverse(s1);
    MulOne(s3);
    MulComm(s3, 1);
  }

  /** Exactly what the decoder accepts: input w is turned into c with success if and only if
      c is a codeword at distance at most two from w that agrees with it on the parity bit. */
  lemma AcceptsExactly(w: Word, c: Word)
    ensures Corrected(w) == (c, true) <==>
      IsCodeword(c) && c[0] == w[0] && Weight(Xor(w, c)) <= 2
  {
    hide Corrected, IsCodeword;
    if Corrected(w) == (c, true) {
      AcceptedIsNearCodeword(w);
    }
    if IsCodeword(c) && c[0] == w[0] && Weight(Xor(w, c)) <= 2 {
      XorSelf(w, c);
      XorSelf(Xor(w, c), c);
      CorrectsTwo(c, Xor(w, c));
    }
  }

  // ---------------------------------------------------------------- minimum distance

  function Locators(ps: seq<Position>): Gf
  {
    if ps == [] then 0 else Add(Locators(ps[..|ps| - 1]), Locate(ps[|ps| - 1]))
  }

  function LocatorCubes(ps: seq<Position>): Gf
  {
    if ps == [] then 0 else Add(LocatorCubes(ps[..|ps| - 1]), Cube(Locate(ps[|ps| - 1])))
  }

  lemma {:induction false} ZeroSyndrome(w: Word, k: nat, i: nat)
    requires 1 <= i <= 32 && forall j :: 0 <= j < 32 ==> !w[j]
    ensures SyndromeFrom(w, k, i) == 0
    decreases 32 - i
  {
    hide Alpha;
    if i < 32 {
      ZeroSyndrome(w, k, i + 1);
      assert Add(0, 0) == 0;
    }
  }

  /** The positions of the ones of a word, and its syndromes in terms of them. */
  lemma {:induction false} Ones(d: Word) returns (ps: seq<Position>)
    ensures |ps| == Weight(d)
    ensures forall p :: p in ps ==> d[p]
    ensures forall i, j :: 0 <= i < j < |ps| ==> ps[i] != ps[j]
    ensures Locators(ps) == Syndrome(d, 1) && LocatorCubes(ps) == Syndrome(d, 3)
    decreases Weight(d)
  {
    hide Add, Cube, Locate, SyndromeFrom, Weight;
    if Weight(d) == 0 {
      ps := [];
      WeightZero(d);
      ZeroSyndrome(d, 1, 1);
      ZeroSyndrome(d, 3, 1);
    } else {
      var p := SomeOne(d);
      var f := d[p := false];
      var qs := Ones(f);
      ps := qs + [p];
      assert ps[..|ps| - 1] == qs;
      assert Flip(f, p) == d;
      SyndromeFlip(f, p);
    }
  }

  /** Listing the parity bit again changes no sum, for it has locator 0. */
  lemma {:induction false} PadWithParityBit(ps: seq<Position>) returns (four: seq<Position>)
    requires |ps| <= 4
    ensures |four| == 4 && ps <= four
    ensures Locators(four) == Locators(ps) && LocatorCubes(four) == LocatorCubes(ps)
    ensures forall i :: |ps| <= i < 4 ==> four[i] == 0
    decreases 4 - |ps|
  {
    hide Add, Cube;
    if |ps| == 4 {
      four := ps;
    } else {
      var longer: seq<Position> := ps + [0];
      assert longer[..|longer| - 1] == ps;
      AddRules(Locators(ps), 0, 0);
      AddRules(LocatorCubes(ps), 0, 0);
      CubeZero();
      four := PadWithParityBit(longer);
    }
  }

  lemma FourSums(ps: seq<Position>)
    requires |ps| == 4
    ensures Locators(ps) == Add(Add(Locate(ps[0]), Locate(ps[1])), Add(Locate(ps[2]), Locate(ps[3])))
    ensures LocatorCubes(ps) ==
      Add(Add(Cube(Locate(ps[0])), Cube(Locate(ps[1]))), Add(Cube(Locate(ps[2])), Cube(Locate(ps[3]))))
  {
    hide Cube, Locate, Add;
    var p3, p2, p1 := ps[..3], ps[..2], ps[..1];
    assert p3[..2] == p2 && p2[..1] == p1 && p1[..0] == [];
    assert Locators(p1) == Add(Locators([]), Locate(ps[0]));
    assert Locators(p2) == Add(Locators(p1), Locate(ps[1]));
    assert Locators(p3) == Add(Locators(p2), Locate(ps[2]));
    assert LocatorCubes(p1) == Add(LocatorCubes([]), Cube(Locate(ps[0])));
    assert LocatorCubes(p2) == Add(LocatorCubes(p1), Cube(Locate(ps[1])));
    assert LocatorCubes(p3) == Add(LocatorCubes(p2), Cube(Locate(ps[2])));
    AddChain(Locate(ps[0]), Locate(ps[1]), Locate(ps[2]), Locate(ps[3]));
    AddChain(Cube(Locate(ps[0])), Cube(Locate(ps[1])), Cube(Locate(ps[2])), Cube(Locate(ps[3])));
  }

  lemma AddChain(a: Gf, b: Gf, c: Gf, d: Gf)
    ensures Add(Add(a, b), Add(c, d)) == Add(Add(Add(Add(0, a), b), c), d)
  {
  }

  /** A word of weight at most four whose syndromes vanish has no ones above the parity bit. */
  lemma SmallWeightSyndrome(d: Word)
    requires Syndrome(d, 1) == 0 && Syndrome(d, 3) == 0 && Weight(d) <= 4
    ensures Weight(d) <= 1
  {
    hide Add, Cube, Locate, Syndrome, Weight, Locators, LocatorCubes;
    if Weight(d) > 1 {
      var ps := Ones(d);
      var four := PadWithParityBit(ps);
      FourSums(four);
      forall i, j | 0 <= i < j < |ps| ensures Locate(four[i]) != Locate(four[j]) {
        if Locate(four[i]) == Locate(four[j]) {
          LocateInjective(ps[i], ps[j]);
        }
      }
      FourLocators(Locate(four[0]), Locate(four[1]), Locate(four[2]), Locate(four[3]));
      assert false;
    }
  }

  lemma {:induction false} SyndromeFromXor(a: Word, b: Word, k: nat, i: nat)
    requires 1 <= i <= 32
    ensures SyndromeFrom(Xor(a, b), k, i) == Add(SyndromeFrom(a, k, i), SyndromeFrom(b, k, i))
    decreases 32 - i
  {
    hide Alpha, Add;
    if i < 32 {
      SyndromeFromXor(a, b, k, i + 1);
      AddMixed(Alpha(((i - 1) * k) % ORDER), a[i], b[i], SyndromeFrom(a, k, i + 1), SyndromeFrom(b, k, i + 1));
    } else {
      AddRules(0, 0, 0);
    }
  }

  lemma AddMixed(v: Gf, p: bool, q: bool, x: Gf, y: Gf)
    ensures Add(if p != q then v else 0, Add(x, y))
         == Add(Add(if p then v else 0, x), Add(if q then v else 0, y))
  {
  }

  /** Two codewords differ in no bit or in at least six. */
  lemma MinimumDistance(a: Word, b: Word)
    requires IsCodeword(a) && IsCodeword(b) && a != b
    ensures Weight(Xor(a, b)) >= 6
  {
    hide Add, SyndromeFrom, Weight;
    var d := Xor(a, b);
    SyndromeFromXor(a, b, 1, 1);
    SyndromeFromXor(a, b, 3, 1);
    AddRules(0, 0, 0);
    var common := XorWeight(a, b);
    XorSelf(a, b);
    if Weight(d) <= 4 {
      SmallWeightSyndrome(d);
    }
  }

  /** Every pattern of exactly three errors, parity bit included, is refused. */
  lemma RejectsThree(w: Word, e: Word)
    requires IsCodeword(w) && Weight(e) == 3
    ensures !Corrected(Xor(w, e)).1
  {
    hide Corrected, Weight, Syndrome;
    var r: Word := Xor(w, e);
    if Corrected(r).1 {
      var c := Corrected(r).0;
      AcceptedIsNearCodeword(r);
      XorSelf(w, e);
      if c == w {
        assert false;
      }
      var common1 := XorWeight(e, Xor(r, c));
      assert Xor(e, Xor(r, c)) == Xor(w, c);
      MinimumDistance(w, c);
      assert false;
    }
  }

  /** An error in the parity bit alone is refused: the parity bit is never corrected. */
  lemma RejectsParityError(w: Word)
    requires IsCodeword(w)
    ensures !Corrected(Flip(w, 0)).1
  {
    hide Weight, Add, SyndromeFrom;
    SyndromeFlip(w, 0);
    CubeZero();
    AddRules(0, 0, 0);
    WeightUpdate(w, 0, !w[0]);
  }

  // ---------------------------------------------------------------- what a refused word becomes

  /** The parity bit plays no part in where the decoder looks for errors. */
  lemma ParityFlipped(w: Word)
    ensures var (v, ok) := Corrected(w);
      var (v', ok') := Corrected(Flip(w, 0));
      v' == Flip(v, 0) && !(ok && ok') && (!ok && !ok' ==> v == w)
  {
    hide Log, GfMul, GfInv, GfPow, Cube, Add, RootsBelow, Weight, SyndromeFrom, FlipAll;
    SyndromeFlip(w, 0);
    CubeZero();
    AddRules(Syndrome(w, 1), 0, 0);
    AddRules(Syndrome(w, 3), 0, 0);
    var s1, s3 := Syndrome(w, 1), Syndrome(w, 3);
    ParityChanges(w);
    ParityChanges(FlipAt(w, s1));
    FlipsApart(w, s1);
    var c := Add(GfMul(s3, GfInv(s1)), GfPow(s1, 2));
    var roots := RootsBelow(s1, c, 32);
    if |roots| == 2 {
      TwoFlips(w, roots);
      TwoFlips(Flip(w, 0), roots);
      FlipsApart(w, roots[0]);
      FlipsApart(FlipAt(w, roots[0]), roots[1]);
      ParityChanges(FlipAll(w, roots));
    }
  }

  lemma ParityChanges(v: Word)
    ensures EvenParity(Flip(v, 0)) != EvenParity(v)
  {
    WeightUpdate(v, 0, !v[0]);
  }

  lemma FlipsApart(w: Word, r: Gf)
    ensures FlipAt(Flip(w, 0), r) == Flip(FlipAt(w, r), 0)
  {
    hide Log;
  }

  /** A word with vanishing syndromes but odd parity, at most two flips away and none of them in the
      parity bit. */
  predicate OddNear(w: Word, u: Word) {
    Syndrome(u, 1) == 0 && Syndrome(u, 3) == 0 && !EvenParity(u) && u[0] == w[0] && Weight(Xor(w, u)) <= 2
  }

  /** What a refused word is left as, exactly: the one such word if there is any, else itself. */
  lemma RefusedExactly(w: Word)
    requires !Corrected(w).1
    ensures forall u: Word :: OddNear(w, u) ==> Corrected(w).0 == u
    ensures (forall u: Word :: !OddNear(w, u)) ==> Corrected(w).0 == w
  {
    hide Corrected, Syndrome, Weight, EvenParity;
    var w' := Flip(w, 0);
    ParityFlipped(w);
    forall u: Word ensures OddNear(w, u) <==> Corrected(w') == (Flip(u, 0), true) {
      NearFlipped(w, u);
      AcceptsExactly(w', Flip(u, 0));
    }
    if Corrected(w').1 {
      var u := Flip(Corrected(w').0, 0);
      FlipTwice(Corrected(w').0);
      assert OddNear(w, u);
    }
    forall u: Word | OddNear(w, u) ensures Corrected(w).0 == u {
      FlipTwice(u);
      FlipTwice(Corrected(w).0);
    }
  }

  /** There is none near an accepted word. */
  lemma NoneOdd(w: Word)
    requires Corrected(w).1
    ensures forall u: Word :: !OddNear(w, u)
  {
    hide Corrected, Syndrome, Weight, EvenParity, IsCodeword, OddNear, Xor;
    ParityFlipped(w);
    forall u: Word ensures !OddNear(w, u) {
      NearFlipped(w, u);
      AcceptsExactly(Flip(w, 0), Flip(u, 0));
    }
  }

  lemma FlipTwice(v: Word)
    ensures Flip(Flip(v, 0), 0) == v
  {
  }

  lemma NearFlipped(w: Word, u: Word)
    ensures OddNear(w, u) <==>
      IsCodeword(Flip(u, 0)) && Flip(u, 0)[0] == Flip(w, 0)[0] && Weight(Xor(Flip(w, 0), Flip(u, 0))) <= 2
  {
    hide Weight, Add, SyndromeFrom, EvenParity;
    SyndromeFlip(u, 0);
    CubeZero();
    AddRules(Syndrome(u, 1), 0, 0);
    AddRules(Syndrome(u, 3), 0, 0);
    ParityChanges(u);
    assert Xor(Flip(w, 0), Flip(u, 0)) == Xor(w, u);
  }
}
