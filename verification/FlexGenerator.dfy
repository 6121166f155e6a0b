/** The code of the FLEX decoder without its field: codewords are the multiples of the generator
    polynomial, with an even number of ones. */
module FlexGenerator {
  import opened Words
  import opened Gf32
  import opened FlexBch

  // ---------------------------------------------------------------- multiples

  /** The terms of x^10 + x^9 + x^8 + x^6 + x^5 + x^3 + 1. */
  predicate Term(k: int) {
    k == 0 || k == 3 || k == 5 || k == 6 || k == 8 || k == 9 || k == 10
  }

  /** The generator times x^s, where bit i + 1 of the word is the coefficient of x^i. */
  function Shifted(s: nat): Word {
    seq(32, k => Term(k - 1 - s))
  }

  function Blank(): Word {
    seq(32, _ => false)
  }

  /** The generator times the first n bits of q, as a polynomial. */
  function Multiple(q: Bits, n: nat): Word
    requires n <= |q|
  {
    if n == 0 then Blank() else Xor(Multiple(q, n - 1), if q[n - 1] then Shifted(n - 1) else Blank())
  }

  lemma BlankSyndrome(k: nat)
    ensures Syndrome(Blank(), k) == 0
  {
    ZeroSyndrome(Blank(), k, 1);
  }

  lemma XorSyndrome(a: Word, b: Word, k: nat)
    ensures Syndrome(Xor(a, b), k) == Add(Syndrome(a, k), Syndrome(b, k))
  {
    SyndromeFromXor(a, b, k, 1);
  }

  function Sum7(a: Gf, b: Gf, c: Gf, d: Gf, e: Gf, f: Gf, g: Gf): Gf {
    Add(Add(Add(Add(Add(Add(a, b), c), d), e), f), g)
  }

  /** The generator vanishes at alpha and alpha cubed. */
  lemma GeneratorVanishes(k: nat)
    requires k == 1 || k == 3
    ensures Sum7(Alpha(0), Alpha(3 * k), Alpha(5 * k), Alpha(6 * k), Alpha(8 * k), Alpha(9 * k), Alpha(10 * k)) == 0
  {
    hide Alpha;
    AlphaValues();
  }

  lemma PowerShifted(s: nat, j: nat, k: nat)
    ensures Alpha(((s + j) * k) % ORDER) == XTimes(s * k, Alpha(j * k))
  {
    AlphaMod((s + j) * k);
    XTimesPower(s * k, j * k);
    assert (s + j) * k == s * k + j * k;
  }

  lemma XTimesSum7(i: nat, a: Gf, b: Gf, c: Gf, d: Gf, e: Gf, f: Gf, g: Gf)
    ensures XTimes(i, Sum7(a, b, c, d, e, f, g))
         == Sum7(XTimes(i, a), XTimes(i, b), XTimes(i, c), XTimes(i, d), XTimes(i, e), XTimes(i, f), XTimes(i, g))
  {
    hide XTimes, Add;
    var ab := Add(a, b);
    var abc := Add(ab, c);
    var abcd := Add(abc, d);
    var abcde := Add(abcd, e);
    XTimesAdds(i, a, b);
    XTimesAdds(i, ab, c);
    XTimesAdds(i, abc, d);
    XTimesAdds(i, abcd, e);
    XTimesAdds(i, abcde, f);
    XTimesAdds(i, Add(abcde, f), g);
  }

  lemma FlipSyndrome(w: Word, s: nat, j: nat, k: nat)
    requires s + j < 31
    ensures Syndrome(Flip(w, s + j + 1), k) == Add(Syndrome(w, k), XTimes(s * k, Alpha(j * k)))
  {
    hide SyndromeFrom, Alpha, Add;
    SyndromeFromFlip(w, s + j + 1, k, 1);
    PowerShifted(s, j, k);
  }

  function Flips(s: nat): Word
    requires s < 21
  {
    Flip(Flip(Flip(Flip(Flip(Flip(Flip(Blank(), s + 1), s + 4), s + 6), s + 7), s + 9), s + 10), s + 11)
  }

  lemma ShiftedIsFlips(s: nat)
    requires s < 21
    ensures Shifted(s) == Flips(s)
  {
    forall k | 0 <= k < 32 ensures Shifted(s)[k] == Flips(s)[k] {
      assert Shifted(s)[k] == Term(k - 1 - s);
    }
  }

  lemma ShiftedSyndrome(s: nat, k: nat)
    requires s < 21 && (k == 1 || k == 3)
    ensures Syndrome(Shifted(s), k) == 0
  {
    hide Syndrome, Alpha, Add, XTimes, Flip, Blank, Shifted;
    ShiftedIsFlips(s);
    var w1 := Flip(Blank(), s + 1);
    var w2 := Flip(w1, s + 4);
    var w3 := Flip(w2, s + 6);
    var w4 := Flip(w3, s + 7);
    var w5 := Flip(w4, s + 9);
    var w6 := Flip(w5, s + 10);
    BlankSyndrome(k);
    FlipSyndrome(Blank(), s, 0, k);
    FlipSyndrome(w1, s, 3, k);
    FlipSyndrome(w2, s, 5, k);
    FlipSyndrome(w3, s, 6, k);
    FlipSyndrome(w4, s, 8, k);
    FlipSyndrome(w5, s, 9, k);
    FlipSyndrome(w6, s, 10, k);
    AddNothing(XTimes(s * k, Alpha(0)));
    XTimesSum7(s * k, Alpha(0), Alpha(3 * k), Alpha(5 * k), Alpha(6 * k), Alpha(8 * k), Alpha(9 * k), Alpha(10 * k));
    GeneratorVanishes(k);
    XTimesZero(s * k);
  }

  lemma {:induction false} MultipleSyndrome(q: Bits, n: nat, k: nat)
    requires n <= |q| && n <= 21 && (k == 1 || k == 3)
    ensures Syndrome(Multiple(q, n), k) == 0
  {
    hide Syndrome, Shifted, Blank;
    BlankSyndrome(k);
    if n > 0 {
      MultipleSyndrome(q, n - 1, k);
      ShiftedSyndrome(n - 1, k);
      XorSyndrome(Multiple(q, n - 1), if q[n - 1] then Shifted(n - 1) else Blank(), k);
      AddNothing(0);
    }
  }

  // ---------------------------------------------------------------- division

  lemma {:induction false} SameMultiple(p: Bits, q: Bits, n: nat)
    requires n <= |p| && n <= |q| && p[..n] == q[..n]
    ensures Multiple(p, n) == Multiple(q, n)
  {
    if n > 0 {
      assert p[..n - 1] == p[..n][..n - 1] && q[..n - 1] == q[..n][..n - 1];
      assert p[n - 1] == p[..n][n - 1] && q[n - 1] == q[..n][n - 1];
      SameMultiple(p, q, n - 1);
    }
  }

  lemma NoMultiple(q: Bits)
    ensures Multiple(q, 0) == Blank()
  {
  }

  lemma OneMoreTerm(q: Bits, n: nat)
    requires 1 <= n <= |q|
    ensures Multiple(q, n) == Xor(Multiple(q, n - 1), if q[n - 1] then Shifted(n - 1) else Blank())
  {
  }

  /** What bit i adds to a sum. */
  function Low(w: Word, i: nat, v: Gf): Gf
    requires i < 32
  {
    if w[i] then v else 0
  }

  function LowSum(w: Word, a: Gf, b: Gf, c: Gf, d: Gf, e: Gf, f: Gf, g: Gf, h: Gf, i: Gf, j: Gf): Gf {
    Add(Low(w, 1, a), Add(Low(w, 2, b), Add(Low(w, 3, c), Add(Low(w, 4, d), Add(Low(w, 5, e),
    Add(Low(w, 6, f), Add(Low(w, 7, g), Add(Low(w, 8, h), Add(Low(w, 9, i), Add(Low(w, 10, j), 0))))))))))
  }

  lemma NothingAbove(w: Word, k: nat, i: nat)
    requires 11 <= i <= 32 && forall j :: 11 <= j < 32 ==> !w[j]
    ensures SyndromeFrom(w, k, i) == 0
    decreases 32 - i
  {
    hide Alpha;
    if i < 32 {
      NothingAbove(w, k, i + 1);
      AddNothing(0);
    }
  }

  lemma OneBelow(w: Word, k: nat, i: nat, v: Gf)
    requires 1 <= i <= 10 && v == Alpha(((i - 1) * k) % ORDER)
    ensures SyndromeFrom(w, k, i) == Add(Low(w, i, v), SyndromeFrom(w, k, i + 1))
  {
    hide Alpha;
  }

  lemma LowFirst(w: Word)
    requires forall j :: 11 <= j < 32 ==> !w[j]
    ensures Syndrome(w, 1) == LowSum(w, 1, 2, 4, 8, 16, 5, 10, 20, 13, 26)
  {
    hide Alpha, Add, Low, SyndromeFrom;
    AlphaValues();
    NothingAbove(w, 1, 11);
    OneBelow(w, 1, 10, 26);
    OneBelow(w, 1, 9, 13);
    OneBelow(w, 1, 8, 20);
    OneBelow(w, 1, 7, 10);
    OneBelow(w, 1, 6, 5);
    OneBelow(w, 1, 5, 16);
    OneBelow(w, 1, 4, 8);
    OneBelow(w, 1, 3, 4);
    OneBelow(w, 1, 2, 2);
    OneBelow(w, 1, 1, 1);
  }

  lemma LowThird(w: Word)
    requires forall j :: 11 <= j < 32 ==> !w[j]
    ensures Syndrome(w, 3) == LowSum(w, 1, 8, 10, 26, 14, 31, 3, 24, 30, 11)
  {
    hide Alpha, Add, Low, SyndromeFrom;
    AlphaValues();
    NothingAbove(w, 3, 11);
    OneBelow(w, 3, 10, 11);
    OneBelow(w, 3, 9, 30);
    OneBelow(w, 3, 8, 24);
    OneBelow(w, 3, 7, 3);
    OneBelow(w, 3, 6, 31);
    OneBelow(w, 3, 5, 14);
    OneBelow(w, 3, 4, 26);
    OneBelow(w, 3, 3, 10);
    OneBelow(w, 3, 2, 8);
    OneBelow(w, 3, 1, 1);
  }

  /** Nothing but zero below x^10 vanishes at both. */
  lemma LowVanishes(w: Word)
    requires LowSum(w, 1, 2, 4, 8, 16, 5, 10, 20, 13, 26) == 0
    requires LowSum(w, 1, 8, 10, 26, 14, 31, 3, 24, 30, 11) == 0
    ensures !w[1] && !w[2] && !w[3] && !w[4] && !w[5] && !w[6] && !w[7] && !w[8] && !w[9] && !w[10]
  {
  }

  lemma NothingLeft(w: Word)
    requires Syndrome(w, 1) == 0 && Syndrome(w, 3) == 0 && !w[0] && forall j :: 11 <= j < 32 ==> !w[j]
    ensures w == Blank()
  {
    hide Syndrome, LowSum, Add;
    LowFirst(w);
    LowThird(w);
    LowVanishes(w);
  }

  lemma TopCleared(w: Word, top: Word, n: nat)
    requires 1 <= n <= 21 && !w[0] && (forall k :: n + 11 <= k < 32 ==> !w[k])
    requires top == if w[n + 10] then Shifted(n - 1) else Blank()
    ensures !Xor(w, top)[0] && forall k :: n + 10 <= k < 32 ==> !Xor(w, top)[k]
  {
    forall k | n + 10 <= k < 32 ensures !Xor(w, top)[k] {
      assert Shifted(n - 1)[k] == Term(k - n) && !Blank()[k];
      assert k > n + 10 ==> !w[k];
    }
    assert Shifted(n - 1)[0] == Term(0 - 1 - (n - 1)) && !Blank()[0];
  }

  /** Long division: a word below x^(n + 10) that vanishes at both is a multiple by n bits. */
  lemma {:induction false} Quotient(w: Word, n: nat) returns (q: Bits)
    requires n <= 21 && Syndrome(w, 1) == 0 && Syndrome(w, 3) == 0 && !w[0]
    requires forall k :: n + 11 <= k < 32 ==> !w[k]
    ensures |q| == n && Multiple(q, n) == w
    decreases n
  {
    hide Syndrome, Multiple, Add;
    if n == 0 {
      q := [];
      NothingLeft(w);
      NoMultiple(q);
    } else {
      var top := if w[n + 10] then Shifted(n - 1) else Blank();
      TopVanishes(w, top, n);
      TopCleared(w, top, n);
      var rest := Quotient(Xor(w, top), n - 1);
      q := rest + [w[n + 10]];
      assert q[..n - 1] == rest;
      SameMultiple(q, rest, n - 1);
      OneMoreTerm(q, n);
      XorSelf(w, top);
    }
  }

  lemma TopVanishes(w: Word, top: Word, n: nat)
    requires 1 <= n <= 21 && Syndrome(w, 1) == 0 && Syndrome(w, 3) == 0
    requires top == if w[n + 10] then Shifted(n - 1) else Blank()
    ensures Syndrome(Xor(w, top), 1) == 0 && Syndrome(Xor(w, top), 3) == 0
  {
    hide Syndrome, Shifted, Blank;
    ShiftedSyndrome(n - 1, 1);
    ShiftedSyndrome(n - 1, 3);
    BlankSyndrome(1);
    BlankSyndrome(3);
    XorSyndrome(w, top, 1);
    XorSyndrome(w, top, 3);
    AddNothing(0);
  }

  // ---------------------------------------------------------------- the code

  /** Codewords, exactly: an even number of ones, and bits 1 to 31, as a polynomial, a multiple of the
      generator by 21 bits. */
  lemma CodewordExactly(w: Word)
    ensures IsCodeword(w) <==>
      EvenParity(w) && exists q: Bits :: |q| == 21 && w[0 := false] == Multiple(q, 21)
  {
    hide Syndrome, Multiple, EvenParity;
    ParityApart(w);
    if IsCodeword(w) {
      var q := Quotient(w[0 := false], 21);
    }
    if q: Bits :| |q| == 21 && w[0 := false] == Multiple(q, 21) {
      MultipleSyndrome(q, 21, 1);
      MultipleSyndrome(q, 21, 3);
    }
  }

  lemma ParityApart(w: Word)
    ensures Syndrome(w[0 := false], 1) == Syndrome(w, 1) && Syndrome(w[0 := false], 3) == Syndrome(w, 3)
  {
    hide Syndrome, Cube, Alpha, Add;
    if w[0] {
      assert w[0 := false] == Flip(w, 0);
      SyndromeFlip(w, 0);
      CubeZero();
      AddRules(Syndrome(w, 1), 0, 0);
      AddRules(Syndrome(w, 3), 0, 0);
    } else {
      assert w[0 := false] == w;
    }
  }
}
