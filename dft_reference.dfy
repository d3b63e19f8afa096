/** The direct DFT that src/dft.rs keeps as a test reference (`dft_naive`),
    and the proof that the radix-2 transform computes it. The twiddle stays
    abstract: all the proof needs are four identities that
    `w(n, m) = exp(-2 pi i m / n)` satisfies for n > 0. */
module DftReference {
  import opened ComplexNumbers
  import opened Dft

  /** `w(n, a + b) = w(n, a) * w(n, b)`. */
  ghost predicate Multiplicative(w: Twiddle, n: nat, a: nat, b: nat)
  {
    n > 0 ==> w(n, a + b) == Mul(w(n, a), w(n, b))
  }

  /** `w(2h, 2m) = w(h, m)`: a root for a block is the square of the root
      for a block twice as long. */
  ghost predicate Halving(w: Twiddle, h: nat, m: nat)
  {
    w(2 * h, 2 * m) == w(h, m)
  }

  /** `w(2h, m + h) = -w(2h, m)`: half a turn flips the sign. */
  ghost predicate HalfTurn(w: Twiddle, h: nat, m: nat)
  {
    h > 0 ==> w(2 * h, m + h) == Neg(w(2 * h, m))
  }

  /** `w(n, j n) = 1`: whole turns. */
  ghost predicate FullTurn(w: Twiddle, n: nat, j: nat)
  {
    n > 0 ==> w(n, j * n) == One
  }

  /** The twiddle behaves like the principal n-th roots of unity. Each fact
      is wrapped in its own predicate so that it is used only where a proof
      names it. */
  ghost predicate UnitRoots(w: Twiddle)
  {
    (forall n: nat, a: nat, b: nat :: Multiplicative(w, n, a, b)) &&
    (forall h: nat, m: nat :: Halving(w, h, m)) &&
    (forall h: nat, m: nat :: HalfTurn(w, h, m)) &&
    (forall n: nat, j: nat :: FullTurn(w, n, j))
  }

  function Sum(s: seq<Complex>): Complex
  {
    if |s| == 0 then Zero else Add(s[0], Sum(s[1..]))
  }

  /** The terms of coefficient k of the direct DFT of x: `w(N, j k) * x[j]`. */
  function Terms(x: seq<Complex>, k: nat, w: Twiddle): (r: seq<Complex>)
    ensures |r| == |x|
  {
    seq(|x|, j requires 0 <= j < |x| => Mul(w(|x|, j * k), x[j]))
  }

  /** Coefficient k of the direct DFT: the inner loop of `dft_naive`, which
      accumulates `x * cos(f n)` into the real part and `x * sin(-f n)` into
      the imaginary part with f = 2 pi k / N. */
  function Coefficient(x: seq<Complex>, k: nat, w: Twiddle): Complex
  {
    Sum(Terms(x, k, w))
  }

  /** A real block as complex numbers with zero imaginary part. */
  function Real(xs: seq<real>): (r: seq<Complex>)
    ensures |r| == |xs|
  {
    seq(|xs|, i requires 0 <= i < |xs| => Complex(xs[i], 0.0))
  }

  /** `dft_naive`: the squared norms of the first half of the direct DFT of
      a real block of even length. */
  function DftNaive(xs: seq<real>, w: Twiddle): (r: seq<real>)
    requires |xs| % 2 == 0
    ensures |r| == |xs| / 2
    ensures forall k :: 0 <= k < |r| ==> r[k] >= 0.0
  {
    seq(|xs| / 2, k requires 0 <= k < |xs| / 2 => NormSqr(Coefficient(Real(xs), k, w)))
  }

  /** The block dft_fast transforms: each sample times its window weight. */
  function ApplyWindow(xs: seq<real>, window: Window): (r: seq<real>)
    ensures |r| == |xs|
  {
    seq(|xs|, i requires 0 <= i < |xs| => xs[i] * window(i, |xs|))
  }

  // Sums.

  lemma {:induction false} SumEvensOdds(s: seq<Complex>)
    requires |s| % 2 == 0
    ensures Sum(s) == Add(Sum(Evens(s)), Sum(Odds(s)))
    decreases |s|
  {
    if |s| > 0 {
      var rest := s[2..];
      SumEvensOdds(rest);
      var e := Evens(s);
      var o := Odds(s);
      assert e[1..] == Evens(rest);
      assert o[1..] == Odds(rest);
      assert s[1..][1..] == rest;
      assert Sum(s) == Add(s[0], Add(s[1], Sum(rest)));
      assert Sum(e) == Add(s[0], Sum(Evens(rest)));
      assert Sum(o) == Add(s[1], Sum(Odds(rest)));
      AddInterchange(s[0], s[1], Sum(Evens(rest)), Sum(Odds(rest)));
    }
  }

  lemma AddInterchange(a: Complex, b: Complex, c: Complex, d: Complex)
    ensures Add(a, Add(b, Add(c, d))) == Add(Add(a, c), Add(b, d))
  {
  }

  lemma {:induction false} SumScale(t: seq<Complex>, c: Complex, s: seq<Complex>)
    requires |t| == |s|
    requires forall i :: 0 <= i < |s| ==> t[i] == Mul(c, s[i])
    ensures Sum(t) == Mul(c, Sum(s))
    decreases |s|
  {
    if |s| == 0 {
      MulZero(c);
    } else {
      SumScale(t[1..], c, s[1..]);
      MulDistributes(c, s[0], Sum(s[1..]));
    }
  }

  // The two halves of a coefficient.

  /** The even-indexed terms of coefficient k are the terms of coefficient
      k of the evens, over the half-length block. */
  lemma EvenTerms(x: seq<Complex>, k: nat, w: Twiddle)
    requires UnitRoots(w) && |x| % 2 == 0
    ensures Evens(Terms(x, k, w)) == Terms(Evens(x), k, w)
  {
    var h := |x| / 2;
    forall m | 0 <= m < h
      ensures Evens(Terms(x, k, w))[m] == Terms(Evens(x), k, w)[m]
    {
      assert (2 * m) * k == 2 * (m * k);
      assert Halving(w, h, m * k);
    }
  }

  /** The odd-indexed terms of coefficient k are `w(N, k)` times the terms
      of coefficient k of the odds. */
  lemma OddTerms(x: seq<Complex>, k: nat, w: Twiddle)
    requires UnitRoots(w) && |x| % 2 == 0 && |x| > 0
    ensures forall m :: 0 <= m < |x| / 2 ==>
      Odds(Terms(x, k, w))[m] == Mul(w(|x|, k), Terms(Odds(x), k, w)[m])
  {
    var n := |x|;
    var h := n / 2;
    forall m | 0 <= m < h
      ensures Odds(Terms(x, k, w))[m] == Mul(w(n, k), Terms(Odds(x), k, w)[m])
    {
      assert (2 * m + 1) * k == 2 * (m * k) + k;
      assert Multiplicative(w, n, 2 * (m * k), k);
      assert Halving(w, h, m * k);
      MulComm(w(h, m * k), w(n, k));
      MulAssoc(w(n, k), w(h, m * k), x[2 * m + 1]);
    }
  }

  /** Coefficient k splits into the coefficient of the evens plus the twiddle
      times the coefficient of the odds, for every k. */
  lemma SplitCoefficient(x: seq<Complex>, k: nat, w: Twiddle)
    requires UnitRoots(w) && |x| % 2 == 0 && |x| > 0
    ensures Coefficient(x, k, w) ==
      Add(Coefficient(Evens(x), k, w), Mul(w(|x|, k), Coefficient(Odds(x), k, w)))
  {
    var t := Terms(x, k, w);
    SumEvensOdds(t);
    EvenTerms(x, k, w);
    OddTerms(x, k, w);
    SumScale(Odds(t), w(|x|, k), Terms(Odds(x), k, w));
  }

  /** Coefficients of a block of length h repeat with period h. */
  lemma Periodic(x: seq<Complex>, t: nat, w: Twiddle)
    requires UnitRoots(w) && |x| > 0
    ensures Coefficient(x, t + |x|, w) == Coefficient(x, t, w)
  {
    var h := |x|;
    forall m | 0 <= m < h
      ensures Terms(x, t + h, w)[m] == Terms(x, t, w)[m]
    {
      assert m * (t + h) == m * t + m * h;
      assert Multiplicative(w, h, m * t, m * h);
      assert FullTurn(w, h, m);
      MulOne(w(h, m * t));
    }
    assert Terms(x, t + h, w) == Terms(x, t, w);
  }

  /** The single coefficient of a one-element block is the element. */
  lemma SingleCoefficient(x: seq<Complex>, w: Twiddle)
    requires UnitRoots(w) && |x| == 1
    ensures Coefficient(x, 0, w) == x[0]
  {
    var t := Terms(x, 0, w);
    assert FullTurn(w, 1, 0);
    MulOne(x[0]);
    assert t[1..] == [];
    assert Sum(t) == Add(t[0], Sum(t[1..]));
  }

  /** One output of the combine step, given that the two halves already hold
      the coefficients of the evens and of the odds. */
  lemma ButterflyCoefficient(x: seq<Complex>, fe: seq<Complex>, fo: seq<Complex>, k: nat, w: Twiddle)
    requires UnitRoots(w) && |x| % 2 == 0 && |x| > 0 && k < |x|
    requires |fe| == |x| / 2 && |fo| == |x| / 2
    requires forall i :: 0 <= i < |x| / 2 ==> fe[i] == Coefficient(Evens(x), i, w)
    requires forall i :: 0 <= i < |x| / 2 ==> fo[i] == Coefficient(Odds(x), i, w)
    ensures Butterfly(fe, fo, w)[k] == Coefficient(x, k, w)
  {
    var n := |x|;
    var h := n / 2;
    SplitCoefficient(x, k, w);
    if k < h {
      assert Butterfly(fe, fo, w)[k] == MulAdd(w(n, k), fo[k], fe[k]);
    } else {
      var t := k - h;
      Periodic(Evens(x), t, w);
      Periodic(Odds(x), t, w);
      assert HalfTurn(w, h, t);
      assert Butterfly(fe, fo, w)[k] == MulAdd(w(n, t), Neg(fo[t]), fe[t]);
      MulAddNegIsSub(w(n, t), fo[t], fe[t]);
      MulNeg(w(n, t), fo[t]);
    }
  }

  /** The radix-2 transform computes every coefficient of the direct DFT. */
  lemma {:induction false} FftIsDft(x: seq<Complex>, w: Twiddle)
    requires UnitRoots(w) && Decimable(|x|)
    ensures forall k :: 0 <= k < |x| ==> Fft(x, w)[k] == Coefficient(x, k, w)
    decreases |x|
  {
    if |x| == 1 {
      SingleCoefficient(x, w);
    } else if |x| >= 2 {
      FftIsDft(Evens(x), w);
      FftIsDft(Odds(x), w);
      forall k | 0 <= k < |x|
        ensures Fft(x, w)[k] == Coefficient(x, k, w)
      {
        ButterflyCoefficient(x, Fft(Evens(x), w), Fft(Odds(x), w), k, w);
      }
    }
  }

  /** What dft_fast returns is the direct DFT of the windowed block. */
  lemma DftFastMatchesNaive(xs: seq<real>, window: Window, w: Twiddle)
    requires UnitRoots(w)
    requires |xs| > 0 && |xs| % 2 == 0 && Decimable(|xs|)
    ensures Spectrum(xs, window, w) == DftNaive(ApplyWindow(xs, window), w)
  {
    var x := Windowed(xs, window);
    assert x == Real(ApplyWindow(xs, window));
    FftIsDft(x, w);
  }

  /** The test `dft_fast_equals_dft_naive` compares dft_fast of a block with
      dft_naive of the same block without the window. Already for the unit
      pulse [1, 0] and any window that vanishes at sample 0, as the Hann
      window does, the two differ: the windowed block is all zeros, so the
      fast spectrum is [0], while the direct DFT has power 1 at bin 0. The only twiddle value involved is `w(2, 0) = cos 0 - i sin 0`,
      which is 1. */
  lemma TestComparesUnwindowed(xs: seq<real>, window: Window, w: Twiddle)
    requires |xs| == 2 && xs[0] == 1.0 && xs[1] == 0.0
    requires w(2, 0) == One && window(0, 2) == 0.0
    ensures Spectrum(xs, window, w) != DftNaive(xs, w)
  {
    FastOnSilence(xs, window, w);
    NaiveOnPulse(xs, w);
    var f := Spectrum(xs, window, w);
    var n := DftNaive(xs, w);
    assert f[0] != n[0];
  }

  /** Under a window that vanishes at sample 0, dft_fast of [a, 0] is [0]. */
  lemma FastOnSilence(xs: seq<real>, window: Window, w: Twiddle)
    requires |xs| == 2 && xs[1] == 0.0 && window(0, 2) == 0.0
    ensures Spectrum(xs, window, w)[0] == 0.0
  {
    var x := Windowed(xs, window);
    assert x[0] == Zero && x[1] == Zero;
    assert Evens(x) == [Zero] && Odds(x) == [Zero];
    assert Fft(x, w)[0] == MulAdd(w(2, 0), Zero, Zero);
  }

  /** dft_naive of the unit pulse [1, 0] has power 1 at bin 0. */
  lemma NaiveOnPulse(xs: seq<real>, w: Twiddle)
    requires |xs| == 2 && xs[0] == 1.0 && xs[1] == 0.0 && w(2, 0) == One
    ensures DftNaive(xs, w)[0] == 1.0
  {
    var x := Real(xs);
    var t := Terms(x, 0, w);
    MulOne(x[0]);
    MulZero(One);
    assert t[0] == Complex(xs[0], 0.0);
    assert t[1] == Zero;
    var u := t[1..];
    assert u[1..] == [];
    assert Sum(u) == Add(u[0], Sum(u[1..]));
    assert Sum(t) == Add(t[0], Sum(u));
    assert Coefficient(x, 0, w) == Complex(xs[0], 0.0);
    assert NormSqr(Complex(1.0, 0.0)) == 1.0;
  }
}
