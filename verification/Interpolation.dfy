/** The resampler against the textbook: insert zeros, filter, and keep every down-th sample. The bank
    holds the taps of a row in their original order, and they are applied to samples in increasing
    order, so the two agree exactly where rows read the same both ways. */
module Interpolation {
  import opened Arithmetic
  import opened Streams
  import opened Fir
  import opened Polyphase

  // ---------------------------------------------------------------- the textbook

  /** Sample n of the stream with up - 1 zeros after every sample. */
  function Stuffed(s: seq<real>, up: nat, n: int): real
    requires up >= 1
  {
    if n >= 0 && n % up == 0 then Heard(s, n / up) else 0.0
  }

  /** The first m terms of the convolution of the taps with the stuffed stream, at time n; taps beyond
      the last are zero. */
  function Filtered(h: seq<real>, s: seq<real>, up: nat, n: int, m: nat): real
    requires up >= 1
  {
    if m == 0 then 0.0 else Filtered(h, s, up, n, m - 1) + Heard(h, m - 1) * Stuffed(s, up, n - (m - 1))
  }

  /** Zero insertion, filtering, and every down-th sample. */
  function Interpolated(h: seq<real>, up: nat, down: nat, s: seq<real>): (y: seq<real>)
    requires up >= 1 && down >= 1
    ensures |y| == Multiples(|s| * up, down)
  {
    seq(Multiples(|s| * up, down), k requires 0 <= k < Multiples(|s| * up, down) =>
      Filtered(h, s, up, k * down, |h|))
  }

  // ---------------------------------------------------------------- polyphase form

  /** The first j terms of a row against samples going back from q. */
  function BackSum(row: seq<real>, s: seq<real>, q: int, j: nat): real
    requires j <= |row|
  {
    if j == 0 then 0.0 else BackSum(row, s, q, j - 1) + row[j - 1] * Heard(s, q - (j - 1))
  }

  lemma {:induction false} NoMoreTaps(h: seq<real>, s: seq<real>, up: nat, n: int, m: nat)
    requires up >= 1 && m >= |h|
    ensures Filtered(h, s, up, n, m) == Filtered(h, s, up, n, |h|)
  {
    hide Stuffed;
    if m > |h| {
      NoMoreTaps(h, s, up, n, m - 1);
      TimesZero(Stuffed(s, up, n - (m - 1)));
    }
  }

  lemma TimesZero(x: real)
    ensures 0.0 * x == 0.0
  {
  }

  /** Where the stuffed stream is not zero: at multiples of up. */
  lemma StuffedAt(s: seq<real>, up: nat, q: int, p: nat, r: nat)
    requires up >= 1 && p < up && r < up
    ensures Stuffed(s, up, q * up + p - r) == if r == p then Heard(s, q) else 0.0
  {
    var n := q * up + p - r;
    if r == p {
      if q >= 0 {
        DivModUnique(n, up, q, 0);
        NotNegative(q, up);
      } else {
        Negative(q, up);
      }
    } else if r < p {
      DivModUnique(n, up, q, p - r);
    } else {
      OneLess(q, up);
      DivModUnique(n, up, q - 1, up + p - r);
    }
  }

  lemma NotNegative(q: int, up: nat)
    requires q >= 0
    ensures q * up >= 0
  {
  }

  lemma Negative(q: int, up: nat)
    requires q < 0 && up >= 1
    ensures q * up < 0
  {
  }

  lemma OneLess(q: int, up: nat)
    ensures (q - 1) * up + up == q * up
  {
  }

  /** Of up consecutive taps one meets a sample. */
  lemma {:induction false} OneOfUp(h: seq<real>, s: seq<real>, up: nat, q: int, p: nat, j: nat, r: nat)
    requires up >= 1 && p < up && r <= up
    ensures Filtered(h, s, up, q * up + p, j * up + r) == Filtered(h, s, up, q * up + p, j * up)
      + (if r > p then Heard(h, j * up + p) * Heard(s, q - j) else 0.0)
    decreases r
  {
    hide Stuffed, Heard;
    if r > 0 {
      OneOfUp(h, s, up, q, p, j, r - 1);
      StuffedAt(s, up, q - j, p, r - 1);
      Back(q, j, up);
      TimesZero2(Heard(h, j * up + r - 1));
    }
  }

  lemma Back(q: int, j: int, up: int)
    ensures (q - j) * up == q * up - j * up
  {
  }

  lemma TimesZero2(x: real)
    ensures x * 0.0 == 0.0
  {
  }

  lemma NextBlock(j: nat, up: nat)
    ensures (j + 1) * up == j * up + up
  {
  }

  /** Row p of the bank holds taps p, p + up, p + 2 up, ... */
  ghost predicate RowOf(row: seq<real>, h: seq<real>, up: nat, p: nat) {
    forall j :: 0 <= j < |row| ==> row[j] == Heard(h, j * up + p)
  }

  lemma {:induction false} RowFilters(row: seq<real>, h: seq<real>, s: seq<real>, up: nat, q: int, p: nat, j: nat)
    requires up >= 1 && p < up && j <= |row| && RowOf(row, h, up, p)
    ensures Filtered(h, s, up, q * up + p, j * up) == BackSum(row, s, q, j)
  {
    hide Heard, Filtered;
    if j == 0 {
      NoTaps(h, s, up, q * up + p);
    } else {
      RowFilters(row, h, s, up, q, p, j - 1);
      OneOfUp(h, s, up, q, p, j - 1, up);
      NextBlock(j - 1, up);
      SameProduct(row[j - 1], Heard(h, (j - 1) * up + p), Heard(s, q - (j - 1)));
    }
  }

  lemma NoTaps(h: seq<real>, s: seq<real>, up: nat, n: int)
    requires up >= 1
    ensures Filtered(h, s, up, n, 0 * up) == 0.0
  {
  }

  lemma SameProduct(a: real, b: real, x: real)
    requires a == b
    ensures a * x == b * x
  {
  }

  /** What the textbook puts out at k, by the row the resampler uses there. */
  lemma TextbookOutput(bank: Bank, h: seq<real>, up: nat, down: nat, taps: nat, s: seq<real>, k: nat)
    requires IsBank(bank, up, taps) && |h| <= taps * up
    requires forall p :: 0 <= p < up ==> RowOf(bank[p], h, up, p)
    ensures var p, q := (k * down) % up, (k * down) / up;
      Filtered(h, s, up, k * down, |h|) == BackSum(bank[p], s, q, taps)
  {
    hide Filtered, BackSum, RowOf;
    var n := k * down;
    var p, q := n % up, n / up;
    assert n == q * up + p by { Divides(n, up); }
    RowFilters(bank[p], h, s, up, q, p, taps);
    NoMoreTaps(h, s, up, n, taps * up);
  }

  lemma Divides(n: nat, up: nat)
    requires up >= 1
    ensures n == (n / up) * up + n % up
  {
  }

  // ---------------------------------------------------------------- reading a row both ways

  function Backwards(row: seq<real>): (r: seq<real>)
    ensures |r| == |row| && forall i :: 0 <= i < |r| ==> r[i] == row[|row| - 1 - i]
  {
    seq(|row|, i requires 0 <= i < |row| => row[|row| - 1 - i])
  }

  /** Summing forwards from the oldest sample is summing the reversed row back from the newest. */
  lemma {:induction false} BothEnds(row: seq<real>, s: seq<real>, q: int, j: nat)
    requires j <= |row|
    ensures RowSum(row, s, q - (|row| - 1), |row| - j) + BackSum(Backwards(row), s, q, j)
         == RowSum(row, s, q - (|row| - 1), |row|)
  {
    hide Heard;
    if j > 0 {
      BothEnds(row, s, q, j - 1);
    }
  }

  predicate Palindrome(row: seq<real>) {
    row == Backwards(row)
  }

  // ---------------------------------------------------------------- one impulse

  /** Silence but for one sample. */
  function Impulse(n: nat, at: nat): (s: seq<real>)
    requires at < n
    ensures |s| == n && forall p: int :: Heard(s, p) == if p == at then 1.0 else 0.0
  {
    seq(n, i => if i == at then 1.0 else 0.0)
  }

  lemma {:induction false} ForwardHears(row: seq<real>, n: nat, at: nat, start: int, j: nat)
    requires at < n && j <= |row|
    ensures RowSum(row, Impulse(n, at), start, j) == if 0 <= at - start < j then row[at - start] else 0.0
  {
    hide Heard, Impulse;
    if j > 0 {
      ForwardHears(row, n, at, start, j - 1);
      Units(row[j - 1]);
    }
  }

  lemma {:induction false} BackwardHears(row: seq<real>, n: nat, at: nat, q: int, j: nat)
    requires at < n && j <= |row|
    ensures BackSum(row, Impulse(n, at), q, j) == if 0 <= q - at < j then row[q - at] else 0.0
  {
    hide Heard, Impulse;
    if j > 0 {
      BackwardHears(row, n, at, q, j - 1);
      Units(row[j - 1]);
    }
  }

  lemma Units(x: real)
    ensures x * 1.0 == x && x * 0.0 == 0.0
  {
  }

  // ---------------------------------------------------------------- the exact condition

  /** A bank built from a prototype filter, as BuildBank does. */
  ghost predicate BankOf(bank: Bank, h: seq<real>, up: nat, taps: nat) {
    && IsBank(bank, up, taps) && |h| <= taps * up
    && forall p :: 0 <= p < up ==> RowOf(bank[p], h, up, p)
  }

  /** Every row an output uses reads the same both ways. */
  ghost predicate RowsSymmetric(bank: Bank, up: nat, down: nat)
    requires up >= 1 && |bank| == up
  {
    forall k: nat :: Palindrome(bank[(k * down) % up])
  }

  lemma SymmetricAgrees(bank: Bank, h: seq<real>, up: nat, down: nat, taps: nat, s: seq<real>, k: nat)
    requires BankOf(bank, h, up, taps) && Palindrome(bank[(k * down) % up])
    ensures Output(bank, up, down, taps, s, k) == Filtered(h, s, up, k * down, |h|)
  {
    hide Filtered, RowSum, BackSum, RowOf;
    TextbookOutput(bank, h, up, down, taps, s, k);
    var row, q := bank[(k * down) % up], (k * down) / up;
    BothEnds(row, s, q, taps);
    Empty(row, s, q - (taps - 1));
  }

  lemma Empty(row: seq<real>, s: seq<real>, start: int)
    ensures RowSum(row, s, start, 0) == 0.0
  {
  }

  /** A later output that uses the same row and has enough samples before it. */
  lemma SameRowLater(k: nat, up: nat, down: nat, taps: nat) returns (later: nat)
    requires up >= 1 && down >= 1
    ensures (later * down) % up == (k * down) % up && (later * down) / up >= taps
  {
    later := k + up * taps;
    var p, q := (k * down) % up, (k * down) / up;
    Divides(k * down, up);
    Distribute(k, up, taps, down);
    DivModUnique(later * down, up, q + taps * down, p);
    AtLeast(taps, down);
  }

  lemma Distribute(k: nat, up: nat, taps: nat, down: nat)
    ensures (k + up * taps) * down == k * down + up * (taps * down)
  {
  }

  lemma AtLeast(taps: nat, down: nat)
    requires down >= 1
    ensures taps * down >= taps
  {
  }

  /** If the two agree on impulses, the row is symmetric. */
  lemma AgreesSymmetric(bank: Bank, h: seq<real>, up: nat, down: nat, taps: nat, k: nat)
    requires BankOf(bank, h, up, taps) && down >= 1
    requires forall s :: Resampled(bank, up, down, taps, s) == Interpolated(h, up, down, s)
    ensures Palindrome(bank[(k * down) % up])
  {
    hide RowSum, BackSum, RowOf, Filtered, Interpolated, Resampled;
    var later := SameRowLater(k, up, down, taps);
    var row, q := bank[(later * down) % up], (later * down) / up;
    forall i | 0 <= i < taps ensures row[i] == row[taps - 1 - i] {
      var s := Impulse(q + 1, q - i);
      assert later * down < |s| * up by { Divides(later * down, up); NextBlock(q, up); }
      OutputsAgree(bank, h, up, down, taps, s, later);
      TextbookOutput(bank, h, up, down, taps, s, later);
      ForwardHears(row, q + 1, q - i, q - (taps - 1), taps);
      BackwardHears(row, q + 1, q - i, q, taps);
    }
    assert row == Backwards(row);
  }

  lemma OutputsAgree(bank: Bank, h: seq<real>, up: nat, down: nat, taps: nat, s: seq<real>, k: nat)
    requires IsBank(bank, up, taps) && down >= 1 && k * down < |s| * up
    requires Resampled(bank, up, down, taps, s) == Interpolated(h, up, down, s)
    ensures Output(bank, up, down, taps, s, k) == Filtered(h, s, up, k * down, |h|)
  {
    hide Output, Filtered, Multiples, Resampled, Interpolated;
    BelowCount(k, |s| * up, down);
    ResampledAt(bank, up, down, taps, s, k);
    InterpolatedAt(h, up, down, s, k);
  }

  lemma BelowCount(k: nat, n: nat, m: nat)
    requires m >= 1 && k * m < n
    ensures k < Multiples(n, m)
  {
  }

  lemma ResampledAt(bank: Bank, up: nat, down: nat, taps: nat, s: seq<real>, k: nat)
    requires IsBank(bank, up, taps) && down >= 1 && k < Multiples(|s| * up, down)
    ensures Resampled(bank, up, down, taps, s)[k] == Output(bank, up, down, taps, s, k)
  {
    hide Output, Multiples;
  }

  lemma InterpolatedAt(h: seq<real>, up: nat, down: nat, s: seq<real>, k: nat)
    requires up >= 1 && down >= 1 && k < Multiples(|s| * up, down)
    ensures Interpolated(h, up, down, s)[k] == Filtered(h, s, up, k * down, |h|)
  {
    hide Filtered, Multiples;
  }

  /** The resampler computes zero insertion, filtering and decimation, on every stream, if and only if
      every row that an output uses is a palindrome. */
  lemma TextbookExactly(bank: Bank, h: seq<real>, up: nat, down: nat, taps: nat)
    requires BankOf(bank, h, up, taps) && down >= 1
    ensures (forall s :: Resampled(bank, up, down, taps, s) == Interpolated(h, up, down, s))
      <==> RowsSymmetric(bank, up, down)
  {
    hide RowOf, Palindrome, Output, Filtered, Multiples, Resampled, Interpolated;
    if RowsSymmetric(bank, up, down) {
      forall s ensures Resampled(bank, up, down, taps, s) == Interpolated(h, up, down, s) {
        forall k: nat | k < Multiples(|s| * up, down)
          ensures Resampled(bank, up, down, taps, s)[k] == Interpolated(h, up, down, s)[k]
        {
          SymmetricAgrees(bank, h, up, down, taps, s, k);
          ResampledAt(bank, up, down, taps, s, k);
          InterpolatedAt(h, up, down, s, k);
        }
      }
    }
    if forall s :: Resampled(bank, up, down, taps, s) == Interpolated(h, up, down, s) {
      forall k: nat ensures Palindrome(bank[(k * down) % up]) {
        AgreesSymmetric(bank, h, up, down, taps, k);
      }
    }
  }

  /** It does not always: two taps of different weight in a row are applied in the wrong order. */
  lemma TextbookWitness()
    ensures var bank, h := [[1.0, 2.0]], [1.0, 2.0];
      BankOf(bank, h, 1, 2)
      && Resampled(bank, 1, 1, 2, [1.0])[0] == 2.0 && Interpolated(h, 1, 1, [1.0])[0] == 1.0
  {
    var bank, h := [[1.0, 2.0]], [1.0, 2.0];
    assert Multiples(1, 1) == 1;
    assert RowSum(bank[0], [1.0], -1, 2) == RowSum(bank[0], [1.0], -1, 1) + 2.0 * Heard([1.0], 0);
    assert Filtered(h, [1.0], 1, 0, 2) == Filtered(h, [1.0], 1, 0, 1) + 2.0 * Stuffed([1.0], 1, -1);
  }
}
