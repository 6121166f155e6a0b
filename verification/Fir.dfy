/** Finite impulse response filtering of a stream of samples, the common specification of the
    two kernels that compute it. Samples are pairs of reals; the float32 kernels are the
    complex ones on samples whose imaginary part is zero. */
module Fir {
  import opened Streams

  datatype Sample = C(re: real, im: real)

  const SILENCE := C(0.0, 0.0)

  function Add(a: Sample, b: Sample): Sample {
    C(a.re + b.re, a.im + b.im)
  }

  function Scale(t: real, a: Sample): Sample {
    C(t * a.re, t * a.im)
  }

  /** Sample p of a stream that is silent outside the part heard. */
  function At(s: seq<Sample>, p: int): Sample {
    SampleAt(SILENCE, s, p)
  }

  /** taps[k] s[p] + taps[k+1] s[p-1] + ... */
  function Tail(taps: seq<real>, s: seq<Sample>, p: int, k: nat): Sample
    requires k <= |taps|
    decreases |taps| - k
  {
    if k == |taps| then SILENCE
    else Add(Scale(taps[k], At(s, p)), Tail(taps, s, p - 1, k + 1))
  }

  /** The convolution of the taps with the stream, at time n. */
  function Convolve(taps: seq<real>, s: seq<Sample>, n: int): Sample {
    Tail(taps, s, n, 0)
  }

  /** Convolution looks only at the past. */
  lemma {:induction false} TailCausal(taps: seq<real>, s: seq<Sample>, t: seq<Sample>, p: int, k: nat)
    requires k <= |taps| && p < |s|
    ensures Tail(taps, s + t, p, k) == Tail(taps, s, p, k)
    decreases |taps| - k
  {
    if k < |taps| {
      TailCausal(taps, s, t, p - 1, k + 1);
    }
  }

  // ---------------------------------------------------------------- decimation

  /** The number of multiples of m below n. */
  function Multiples(n: nat, m: nat): (c: nat)
    requires m >= 1
    ensures (forall i: nat :: i < c <==> i * m < n)
  {
    var c := (n + m - 1) / m;
    CeilingSplits(n, m, c);
    c
  }

  lemma CeilingSplits(n: nat, m: nat, c: nat)
    requires m >= 1 && c == (n + m - 1) / m
    ensures forall i: nat :: i < c <==> i * m < n
  {
    var r := (n + m - 1) % m;
    assert n + m - 1 == m * c + r;
    forall i: nat ensures i < c <==> i * m < n {
      if i < c {
        assert i * m <= (c - 1) * m by { Monotone(i, c - 1, m); }
        assert (c - 1) * m == m * c - m;
      } else {
        assert c * m <= i * m by { Monotone(c, i, m); }
      }
    }
  }

  lemma Monotone(a: nat, b: nat, m: nat)
    requires a <= b
    ensures a * m <= b * m
  {
  }

  /** Every m-th sample of the convolution, starting with the first. */
  function Decimated(taps: seq<real>, m: nat, s: seq<Sample>): (y: seq<Sample>)
    requires m >= 1
    ensures |y| == Multiples(|s|, m)
  {
    seq(Multiples(|s|, m), i requires 0 <= i < Multiples(|s|, m) => Convolve(taps, s, i * m))
  }

  /** From a stream of length n, the distance to the next multiple of m. */
  function PhaseAfter(n: nat, m: nat): (phase: nat)
    requires m >= 1
    ensures phase < m
  {
    (m - n % m) % m
  }

  lemma PhaseIsDistance(n: nat, m: nat)
    requires m >= 1
    ensures n + PhaseAfter(n, m) == Multiples(n, m) * m
  {
    hide Multiples;
    var c, r := n / m, n % m;
    Divided(n, m);
    if r == 0 {
      CountIs(n, m, c);
    } else {
      assert (c + 1) * m == c * m + m;
      CountIs(n, m, c + 1);
    }
  }

  lemma Divided(n: nat, m: nat)
    requires m >= 1
    ensures n == (n / m) * m + n % m
    ensures PhaseAfter(n, m) == if n % m == 0 then 0 else m - n % m
  {
    var r := n % m;
    if r > 0 {
      SmallModulo(m - r, m);
    } else {
      assert m % m == 0;
    }
  }

  lemma SmallModulo(a: int, m: nat)
    requires 0 <= a < m
    ensures a % m == a
  {
  }

  /** The count is determined by where its last multiple falls. */
  lemma CountIs(n: nat, m: nat, c: nat)
    requires m >= 1 && n <= c * m < n + m
    ensures Multiples(n, m) == c
  {
    assert !(c < Multiples(n, m));
    if c > 0 {
      assert (c - 1) * m == c * m - m;
      assert c - 1 < Multiples(n, m);
    }
  }

  /** New input extends the output: the next outputs are the convolution at the next multiples
      of m, of which the first lies PhaseAfter samples into the new input. */
  lemma DecimatedGrows(taps: seq<real>, m: nat, s: seq<Sample>, x: seq<Sample>, y: seq<Sample>)
    requires m >= 1
    requires |y| == Multiples(|s| + |x|, m) - Multiples(|s|, m)
    requires forall i :: 0 <= i < |y| ==> y[i] == Convolve(taps, s + x, |s| + PhaseAfter(|s|, m) + i * m)
    ensures Decimated(taps, m, s + x) == Decimated(taps, m, s) + y
  {
    hide Convolve, PhaseAfter, Multiples;
    PhaseIsDistance(|s|, m);
    var c := Multiples(|s|, m);
    var lhs, rhs := Decimated(taps, m, s + x), Decimated(taps, m, s) + y;
    forall k | 0 <= k < |lhs| ensures lhs[k] == rhs[k] {
      if k < c {
        assert k * m < |s|;
        ConvolveCausal(taps, s, x, k * m);
      } else {
        assert k * m == c * m + (k - c) * m;
        assert rhs[k] == y[k - c];
      }
    }
  }

  lemma ConvolveCausal(taps: seq<real>, s: seq<Sample>, t: seq<Sample>, p: int)
    requires p < |s|
    ensures Convolve(taps, s + t, p) == Convolve(taps, s, p)
  {
    TailCausal(taps, s, t, p, 0);
  }

  function Flatten<T>(chunks: seq<seq<T>>): seq<T> {
    if chunks == [] then [] else Flatten(chunks[..|chunks| - 1]) + chunks[|chunks| - 1]
  }
}
