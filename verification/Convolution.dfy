/** What the filters compute, in plain real arithmetic: sums of products, the answer to a unit impulse,
    linearity and invariance under delay. */
module Convolution {
  import opened Streams
  import opened Fir

  /** The real or the imaginary parts of a stream. */
  function Parts(s: seq<Sample>, imaginary: bool): (x: seq<real>)
    ensures |x| == |s|
  {
    seq(|s|, i requires 0 <= i < |s| => Part(s[i], imaginary))
  }

  function Part(a: Sample, imaginary: bool): real {
    if imaginary then a.im else a.re
  }

  /** taps[0] x[n] + taps[1] x[n-1] + ... , the first k products; x is zero outside its length. */
  function Products(taps: seq<real>, x: seq<real>, n: int, k: nat): real
    requires k <= |taps|
  {
    if k == 0 then 0.0 else Products(taps, x, n, k - 1) + taps[k - 1] * SampleAt(0.0, x, n - (k - 1))
  }

  lemma PartAt(s: seq<Sample>, p: int, imaginary: bool)
    ensures SampleAt(0.0, Parts(s, imaginary), p) == Part(At(s, p), imaginary)
  {
  }

  lemma {:induction false} TailIs(taps: seq<real>, s: seq<Sample>, n: int, k: nat, imaginary: bool)
    requires k <= |taps|
    ensures Products(taps, Parts(s, imaginary), n, k) + Part(Tail(taps, s, n - k, k), imaginary)
         == Products(taps, Parts(s, imaginary), n, |taps|)
    decreases |taps| - k
  {
    hide At, Parts;
    if k < |taps| {
      TailIs(taps, s, n, k + 1, imaginary);
      PartAt(s, n - k, imaginary);
      TailStep(taps, s, n - k, k, imaginary);
    }
  }

  lemma TailStep(taps: seq<real>, s: seq<Sample>, p: int, k: nat, imaginary: bool)
    requires k < |taps|
    ensures Part(Tail(taps, s, p, k), imaginary)
         == taps[k] * Part(At(s, p), imaginary) + Part(Tail(taps, s, p - 1, k + 1), imaginary)
  {
    hide At;
  }

  /** Each component of the convolution is the sum of the taps times that component going back from
      time n. */
  lemma ConvolveIs(taps: seq<real>, s: seq<Sample>, n: int)
    ensures Convolve(taps, s, n).re == Products(taps, Parts(s, false), n, |taps|)
    ensures Convolve(taps, s, n).im == Products(taps, Parts(s, true), n, |taps|)
  {
    hide Tail, Products;
    TailIs(taps, s, n, 0, false);
    TailIs(taps, s, n, 0, true);
    NoProducts(taps, Parts(s, false), n);
    NoProducts(taps, Parts(s, true), n);
  }

  lemma NoProducts(taps: seq<real>, x: seq<real>, n: int)
    ensures Products(taps, x, n, 0) == 0.0
  {
  }

  /** Output k of decimation is the sum at time k m, and there is one for every multiple of m below the
      length. */
  lemma DecimatedIs(taps: seq<real>, m: nat, s: seq<Sample>, k: nat)
    requires m >= 1
    ensures k < |Decimated(taps, m, s)| <==> k * m < |s|
    ensures k * m < |s| ==>
      Decimated(taps, m, s)[k]
      == C(Products(taps, Parts(s, false), k * m, |taps|), Products(taps, Parts(s, true), k * m, |taps|))
  {
    hide Convolve, Products, Parts;
    ConvolveIs(taps, s, k * m);
  }

  // ---------------------------------------------------------------- what a filter is

  /** One sample of height one, followed by silence, gives back the taps. */
  lemma ImpulseGivesTaps(taps: seq<real>, n: int)
    ensures Convolve(taps, [C(1.0, 0.0)], n) == if 0 <= n < |taps| then C(taps[n], 0.0) else SILENCE
  {
    hide Products;
    var impulse := [C(1.0, 0.0)];
    ConvolveIs(taps, impulse, n);
    assert Parts(impulse, false) == [1.0] && Parts(impulse, true) == [0.0];
    Impulse(taps, 1.0, n, |taps|);
    Impulse(taps, 0.0, n, |taps|);
  }

  lemma {:induction false} Impulse(taps: seq<real>, h: real, n: int, k: nat)
    requires k <= |taps|
    ensures Products(taps, [h], n, k) == if 0 <= n < k then taps[n] * h else 0.0
  {
    if k > 0 {
      Impulse(taps, h, n, k - 1);
      TimesZero(taps[k - 1]);
    }
  }

  lemma TimesZero(t: real)
    ensures t * 0.0 == 0.0
  {
  }

  /** a times one stream plus another of the same length. */
  function Mixed(a: real, s: seq<Sample>, t: seq<Sample>): (u: seq<Sample>)
    requires |s| == |t|
    ensures |u| == |s|
  {
    seq(|s|, i requires 0 <= i < |s| => C(a * s[i].re + t[i].re, a * s[i].im + t[i].im))
  }

  /** A mixture is filtered into the mixture of what its parts are filtered into. */
  lemma ConvolveLinear(taps: seq<real>, a: real, s: seq<Sample>, t: seq<Sample>, n: int)
    requires |s| == |t|
    ensures Convolve(taps, Mixed(a, s, t), n)
         == C(a * Convolve(taps, s, n).re + Convolve(taps, t, n).re,
              a * Convolve(taps, s, n).im + Convolve(taps, t, n).im)
  {
    hide Convolve, Products, Mixed, Parts;
    ConvolveIs(taps, s, n);
    ConvolveIs(taps, t, n);
    ConvolveIs(taps, Mixed(a, s, t), n);
    ProductsLinear(taps, a, s, t, n, |taps|, false);
    ProductsLinear(taps, a, s, t, n, |taps|, true);
  }

  lemma {:induction false} ProductsLinear(taps: seq<real>, a: real, s: seq<Sample>, t: seq<Sample>, n: int, k: nat,
                                          imaginary: bool)
    requires |s| == |t| && k <= |taps|
    ensures Products(taps, Parts(Mixed(a, s, t), imaginary), n, k)
         == a * Products(taps, Parts(s, imaginary), n, k) + Products(taps, Parts(t, imaginary), n, k)
  {
    hide Mixed, Parts, SampleAt;
    if k == 0 {
      TimesZero(a);
    } else {
      ProductsLinear(taps, a, s, t, n, k - 1, imaginary);
      MixedAt(a, s, t, n - (k - 1), imaginary);
      Distributes(taps[k - 1], a, SampleAt(0.0, Parts(s, imaginary), n - (k - 1)),
                  SampleAt(0.0, Parts(t, imaginary), n - (k - 1)), Products(taps, Parts(s, imaginary), n, k - 1));
    }
  }

  lemma MixedAt(a: real, s: seq<Sample>, t: seq<Sample>, p: int, imaginary: bool)
    requires |s| == |t|
    ensures SampleAt(0.0, Parts(Mixed(a, s, t), imaginary), p)
         == a * SampleAt(0.0, Parts(s, imaginary), p) + SampleAt(0.0, Parts(t, imaginary), p)
  {
    TimesZero(a);
  }

  lemma Distributes(tap: real, a: real, x: real, y: real, sum: real)
    ensures tap * (a * x + y) == a * (tap * x) + tap * y
    ensures a * (sum + tap * x) == a * sum + a * (tap * x)
  {
    assert tap * (a * x + y) == tap * (a * x) + tap * y;
    assert tap * (a * x) == a * (tap * x);
  }

  /** A stream that starts d samples later is filtered into the same, d samples later. */
  lemma ConvolveDelayed(taps: seq<real>, s: seq<Sample>, d: nat, n: int)
    ensures Convolve(taps, seq(d, _ => SILENCE) + s, n + d) == Convolve(taps, s, n)
  {
    TailDelayed(taps, s, d, n, 0);
  }

  lemma {:induction false} TailDelayed(taps: seq<real>, s: seq<Sample>, d: nat, p: int, k: nat)
    requires k <= |taps|
    ensures Tail(taps, seq(d, _ => SILENCE) + s, p + d, k) == Tail(taps, s, p, k)
    decreases |taps| - k
  {
    hide Add, Scale;
    if k < |taps| {
      TailDelayed(taps, s, d, p - 1, k + 1);
      DelayedAt(s, d, p);
    }
  }

  lemma DelayedAt(s: seq<Sample>, d: nat, p: int)
    ensures At(seq(d, _ => SILENCE) + s, p + d) == At(s, p)
  {
    var u := seq(d, _ => SILENCE) + s;
    if 0 <= p < |s| {
      assert u[p + d] == s[p];
    }
  }
}
