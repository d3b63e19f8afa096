/** The radix-2 decimation-in-time transform of src/dft.rs and the spectrum
    extraction built on it. The transform runs in place on an array, with one
    scratch array shared by every level of the recursion; the function Fft
    is its specification. Twiddle factors and the window are parameters:
    their cosines and sines are not modelled. */
module Dft {
  import opened ComplexNumbers
  import opened Powers

  /** `w(len, i)` is the twiddle factor for index i of a block of length len;
      in the source the unit number (cos(2 pi i / len), -sin(2 pi i / len)). */
  type Twiddle = (nat, nat) -> Complex

  /** `window(i, len)` is the weight of sample i in a block of length len;
      in the source the normalised Hann window 2 sin^2(pi i / (len - 1)). */
  type Window = (nat, nat) -> real

  /** The even-length check of cooley_tukey holds at this level and at every
      level below it: lengths below 2 return at once, others must be even
      and their halves must again pass. */
  predicate Decimable(n: nat): (r: bool)
    ensures r && n >= 2 ==> n / 2 * 2 == n && Decimable(n / 2)
  {
    n < 2 || (n % 2 == 0 && Decimable(n / 2))
  }

  /** Every power of two passes the even-length checks at all levels. */
  lemma {:induction false} Pow2Decimable(k: nat)
    ensures Decimable(Pow2(k))
  {
    if k > 0 {
      Pow2Decimable(k - 1);
      assert Pow2(k) / 2 == Pow2(k - 1);
    }
  }

  /** A positive length that passes the checks at all levels is a power of
      two. */
  lemma {:induction false} DecimableIsPow2(n: nat)
    requires n > 0 && Decimable(n)
    ensures exists k: nat :: Pow2(k) == n
  {
    if n == 1 {
      assert Pow2(0) == n;
    } else {
      DecimableIsPow2(n / 2);
      var k: nat :| Pow2(k) == n / 2;
      assert Pow2(k + 1) == n;
    }
  }

  function Evens(s: seq<Complex>): seq<Complex>
  {
    seq(|s| / 2, i requires 0 <= i < |s| / 2 => s[2 * i])
  }

  function Odds(s: seq<Complex>): seq<Complex>
  {
    seq(|s| / 2, i requires 0 <= i < |s| / 2 => s[2 * i + 1])
  }

  /** The combine step on the transforms `e` of the evens and `o` of the
      odds: index i gets `w(n, i).mul_add(o[i], e[i])` and index i + n/2 gets
      `w(n, i).mul_add(-o[i], e[i])`, for n = 2 |e|. */
  function Butterfly(e: seq<Complex>, o: seq<Complex>, w: Twiddle): seq<Complex>
    requires |e| == |o|
  {
    var h := |e|;
    seq(2 * h, k requires 0 <= k < 2 * h =>
      if k < h then MulAdd(w(2 * h, k), o[k], e[k])
      else MulAdd(w(2 * h, k - h), Neg(o[k - h]), e[k - h]))
  }

  /** What cooley_tukey leaves in its slice. */
  function Fft(s: seq<Complex>, w: Twiddle): (r: seq<Complex>)
    requires Decimable(|s|)
    ensures |r| == |s|
    ensures |s| < 2 ==> r == s
    decreases |s|
  {
    if |s| < 2 then s
    else Butterfly(Fft(Evens(s), w), Fft(Odds(s), w), w)
  }

  // Slices of two sequences agree wherever their prefixes or suffixes do.

  lemma PrefixSlice(a: seq<Complex>, b: seq<Complex>, k: nat, i: nat, j: nat)
    requires k <= |a| && k <= |b| && a[..k] == b[..k] && i <= j <= k
    ensures a[i..j] == b[i..j]
  {
    forall t | i <= t < j
      ensures a[t] == b[t]
    {
      assert a[t] == a[..k][t];
    }
  }

  lemma SuffixSlice(a: seq<Complex>, b: seq<Complex>, k: nat, i: nat, j: nat)
    requires |a| == |b| && k <= |a| && a[k..] == b[k..] && k <= i <= j <= |a|
    ensures a[i..j] == b[i..j] && a[j..] == b[j..]
  {
    forall t | i <= t < |a|
      ensures a[t] == b[t]
    {
      assert a[t] == a[k..][t - k];
    }
  }

  /** The front of the array after the first i steps of the first copy loop
      over `b[lo..]`: step k copies the value at `lo + 2k` to `lo + k`. */
  ghost function CompactStage(b: seq<Complex>, lo: nat, i: nat): (r: seq<Complex>)
    requires lo + 2 * i <= |b|
    ensures |r| == |b|
  {
    if i == 0 then b
    else
      var s := CompactStage(b, lo, i - 1);
      s[lo + i - 1 := s[lo + 2 * (i - 1)]]
  }

  /** Slots before lo and from `lo + i` on still hold their original values;
      slot `lo + k` for k below i holds the original value at `lo + 2k`. */
  lemma {:induction false} CompactStageAt(b: seq<Complex>, lo: nat, i: nat)
    requires lo + 2 * i <= |b|
    ensures forall j :: 0 <= j < |b| && !(lo <= j < lo + i) ==> CompactStage(b, lo, i)[j] == b[j]
    ensures forall j :: lo <= j < lo + i ==> CompactStage(b, lo, i)[j] == b[lo + 2 * (j - lo)]
  {
    if i > 0 {
      CompactStageAt(b, lo, i - 1);
    }
  }

  /** After all the steps over `b[lo..hi]` the front half holds the evens of
      the block; the back half and everything outside are unchanged. */
  lemma CompactStageComplete(b: seq<Complex>, lo: nat, mid: nat, hi: nat)
    requires lo <= mid <= hi <= |b| && mid - lo == hi - mid
    ensures CompactStage(b, lo, mid - lo)[..lo] == b[..lo]
    ensures CompactStage(b, lo, mid - lo)[mid..] == b[mid..]
    ensures CompactStage(b, lo, mid - lo)[lo..mid] == Evens(b[lo..hi])
  {
    var s := CompactStage(b, lo, mid - lo);
    CompactStageAt(b, lo, mid - lo);
    assert s[..lo] == b[..lo];
    assert s[mid..] == b[mid..];
    assert s[lo..mid] == Evens(b[lo..hi]);
  }

  /** The scratch filled by the first copy loop holds the odds of the block. */
  lemma ScratchOdds(t: seq<Complex>, b: seq<Complex>, lo: nat, mid: nat, hi: nat)
    requires lo <= mid <= hi <= |b| && mid - lo == hi - mid && mid - lo <= |t|
    requires forall k :: 0 <= k < mid - lo ==> t[k] == b[lo + 2 * k + 1]
    ensures t[..mid - lo] == Odds(b[lo..hi])
  {
  }

  /** The first loop of cooley_tukey on the block `xs[lo..hi]` with
      `mid - lo == hi - mid` the half length: odd-indexed elements go to the
      scratch array and even-indexed ones are compacted to the front half.
      Step i reads slots 2i and 2i + 1, which no earlier step has written. */
  method Split(xs: array<Complex>, lo: nat, mid: nat, hi: nat, tmp: array<Complex>, ghost b: seq<Complex>)
    requires xs != tmp
    requires lo <= mid <= hi <= xs.Length && mid - lo == hi - mid && mid - lo <= tmp.Length
    requires xs[..] == b
    modifies xs, tmp
    ensures xs[..lo] == b[..lo] && xs[mid..] == b[mid..]
    ensures xs[lo..mid] == Evens(b[lo..hi])
    ensures tmp[..mid - lo] == Odds(b[lo..hi])
  {
    for i := 0 to mid - lo
      invariant xs[..] == CompactStage(b, lo, i)
      invariant forall k :: 0 <= k < i ==> tmp[k] == b[lo + 2 * k + 1]
    {
      CompactStageAt(b, lo, i);
      tmp[i] := xs[lo + 2 * i + 1];
      xs[lo + i] := xs[lo + 2 * i];
    }
    CompactStageComplete(b, lo, mid, hi);
    ScratchOdds(tmp[..], b, lo, mid, hi);
  }

  /** The back of the array after the first i steps of the second copy loop:
      step k copies scratch slot k to `mid + k`. */
  ghost function CopyStage(b: seq<Complex>, t: seq<Complex>, mid: nat, i: nat): (r: seq<Complex>)
    requires mid + i <= |b| && i <= |t|
    ensures |r| == |b|
  {
    if i == 0 then b
    else CopyStage(b, t, mid, i - 1)[mid + i - 1 := t[i - 1]]
  }

  lemma {:induction false} CopyStageAt(b: seq<Complex>, t: seq<Complex>, mid: nat, i: nat)
    requires mid + i <= |b| && i <= |t|
    ensures forall j :: 0 <= j < |b| && !(mid <= j < mid + i) ==> CopyStage(b, t, mid, i)[j] == b[j]
    ensures forall j :: mid <= j < mid + i ==> CopyStage(b, t, mid, i)[j] == t[j - mid]
  {
    if i > 0 {
      CopyStageAt(b, t, mid, i - 1);
    }
  }

  /** After all the steps the back half holds the scratch's prefix and the
      rest is unchanged. */
  lemma CopyStageComplete(b: seq<Complex>, t: seq<Complex>, mid: nat, hi: nat)
    requires mid <= hi <= |b| && hi - mid <= |t|
    ensures CopyStage(b, t, mid, hi - mid)[..mid] == b[..mid]
    ensures CopyStage(b, t, mid, hi - mid)[hi..] == b[hi..]
    ensures CopyStage(b, t, mid, hi - mid)[mid..hi] == t[..hi - mid]
  {
    var s := CopyStage(b, t, mid, hi - mid);
    CopyStageAt(b, t, mid, hi - mid);
    assert s[..mid] == b[..mid];
    assert s[hi..] == b[hi..];
    assert s[mid..hi] == t[..hi - mid];
  }

  /** The second loop of cooley_tukey: the scratch is copied into the back
      half `xs[mid..hi]`, and nothing else changes. */
  method CopyBack(xs: array<Complex>, lo: nat, mid: nat, hi: nat, tmp: array<Complex>, ghost b: seq<Complex>)
    requires xs != tmp
    requires lo <= mid <= hi <= xs.Length && mid - lo == hi - mid && mid - lo <= tmp.Length
    requires xs[..] == b
    modifies xs
    ensures xs[..mid] == b[..mid] && xs[hi..] == b[hi..]
    ensures xs[mid..hi] == tmp[..mid - lo]
  {
    ghost var t := tmp[..];
    for i := 0 to mid - lo
      invariant xs[..] == CopyStage(b, t, mid, i)
    {
      xs[mid + i] := tmp[i];
    }
    CopyStageComplete(b, t, mid, hi);
  }

  /** Both copy loops: the block `xs[lo..hi]` becomes its evens followed by
      its odds, and nothing outside it changes. */
  method Deinterleave(xs: array<Complex>, lo: nat, mid: nat, hi: nat, tmp: array<Complex>, ghost b: seq<Complex>)
    requires xs != tmp
    requires lo <= mid <= hi <= xs.Length && mid - lo == hi - mid && mid - lo <= tmp.Length
    requires xs[..] == b
    modifies xs, tmp
    ensures xs[..lo] == b[..lo] && xs[hi..] == b[hi..]
    ensures xs[lo..mid] == Evens(b[lo..hi])
    ensures xs[mid..hi] == Odds(b[lo..hi])
  {
    Split(xs, lo, mid, hi, tmp, b);
    ghost var a := xs[..];
    SuffixSlice(a, b, mid, hi, hi);
    CopyBack(xs, lo, mid, hi, tmp, a);
    ghost var c := xs[..];
    PrefixSlice(c, a, mid, lo, mid);
    PrefixSlice(c, a, mid, 0, lo);
  }

  /** The array contents after the first i steps of the butterfly loop over
      `b[lo..hi]`, `mid - lo` being the half length and n the block length:
      step k puts `w(n, k) * odd + even` at `lo + k` and
      `w(n, k) * -odd + even` at `mid + k`, where `even` and `odd` are the
      values found there. */
  ghost function Stage(b: seq<Complex>, lo: nat, mid: nat, n: nat, w: Twiddle, i: nat): (r: seq<Complex>)
    requires lo + i <= mid && mid + (mid - lo) <= |b|
    ensures |r| == |b|
  {
    if i == 0 then b
    else
      var s := Stage(b, lo, mid, n, w, i - 1);
      s[lo + i - 1 := MulAdd(w(n, i - 1), s[mid + i - 1], s[lo + i - 1])]
       [mid + i - 1 := MulAdd(w(n, i - 1), Neg(s[mid + i - 1]), s[lo + i - 1])]
  }

  /** After i steps the first i slots of each half hold their butterfly
      outputs, computed from the original values. */
  lemma {:induction false} StageDone(b: seq<Complex>, lo: nat, mid: nat, n: nat, w: Twiddle, i: nat)
    requires lo + i <= mid && mid + (mid - lo) <= |b|
    ensures forall j :: lo <= j < lo + i ==>
      Stage(b, lo, mid, n, w, i)[j] == MulAdd(w(n, j - lo), b[j + (mid - lo)], b[j])
    ensures forall j :: mid <= j < mid + i ==>
      Stage(b, lo, mid, n, w, i)[j] == MulAdd(w(n, j - mid), Neg(b[j]), b[j - (mid - lo)])
  {
    if i > 0 {
      StageDone(b, lo, mid, n, w, i - 1);
      StageUntouched(b, lo, mid, n, w, i - 1);
    }
  }

  /** After i steps every other slot still holds its original value. */
  lemma {:induction false} StageUntouched(b: seq<Complex>, lo: nat, mid: nat, n: nat, w: Twiddle, i: nat)
    requires lo + i <= mid && mid + (mid - lo) <= |b|
    ensures forall j :: 0 <= j < |b| && !(lo <= j < lo + i) && !(mid <= j < mid + i) ==>
      Stage(b, lo, mid, n, w, i)[j] == b[j]
  {
    if i > 0 {
      StageUntouched(b, lo, mid, n, w, i - 1);
    }
  }

  /** Once all `mid - lo` steps are done the block holds the butterfly of
      its two halves, and nothing outside it has changed. */
  lemma StageComplete(b: seq<Complex>, lo: nat, mid: nat, hi: nat, w: Twiddle)
    requires lo <= mid <= hi <= |b| && mid - lo == hi - mid
    ensures Stage(b, lo, mid, hi - lo, w, mid - lo)[..lo] == b[..lo]
    ensures Stage(b, lo, mid, hi - lo, w, mid - lo)[hi..] == b[hi..]
    ensures Stage(b, lo, mid, hi - lo, w, mid - lo)[lo..hi] == Butterfly(b[lo..mid], b[mid..hi], w)
  {
    var s := Stage(b, lo, mid, hi - lo, w, mid - lo);
    StageDone(b, lo, mid, hi - lo, w, mid - lo);
    StageUntouched(b, lo, mid, hi - lo, w, mid - lo);
    ButterfliesCombine(b, s, lo, mid, hi, w);
    assert s[..lo] == b[..lo];
    assert s[hi..] == b[hi..];
  }

  /** Pointwise effect of the butterfly loop, as a slice. */
  lemma ButterfliesCombine(b: seq<Complex>, a: seq<Complex>, lo: nat, mid: nat, hi: nat, w: Twiddle)
    requires |a| == |b| && lo <= mid <= hi <= |a| && mid - lo == hi - mid
    requires forall j :: lo <= j < mid ==>
      a[j] == MulAdd(w(hi - lo, j - lo), b[j + (mid - lo)], b[j])
    requires forall j :: mid <= j < hi ==>
      a[j] == MulAdd(w(hi - lo, j - mid), Neg(b[j]), b[j - (mid - lo)])
    ensures a[lo..hi] == Butterfly(b[lo..mid], b[mid..hi], w)
  {
  }

  /** The butterfly loop of cooley_tukey over `xs[lo..hi]`, whose halves
      `xs[lo..mid]` and `xs[mid..hi]` hold the transforms of the evens and
      the odds: the block becomes their butterfly, and nothing outside it
      changes. */
  method Butterflies(xs: array<Complex>, lo: nat, mid: nat, hi: nat, w: Twiddle, ghost b: seq<Complex>)
    requires lo <= mid <= hi <= xs.Length && mid - lo == hi - mid && xs[..] == b
    modifies xs
    ensures xs[..lo] == b[..lo] && xs[hi..] == b[hi..]
    ensures xs[lo..hi] == Butterfly(b[lo..mid], b[mid..hi], w)
  {
    var n := hi - lo;
    for i := 0 to mid - lo
      invariant xs[..] == Stage(b, lo, mid, n, w, i)
    {
      var cexp := w(n, i);
      var even := xs[lo + i];
      var odd := xs[mid + i];
      xs[lo + i] := MulAdd(cexp, odd, even);
      xs[mid + i] := MulAdd(cexp, Neg(odd), even);
    }
    StageComplete(b, lo, mid, hi, w);
  }

  /** `cooley_tukey(&mut xs[lo..hi], tmp)`. The slice, whose contents are
      `s`, becomes the transform of `s`, and nothing outside it changes. The
      scratch needs half the slice's length, which covers the quarter each
      recursive call asks for. */
  method CooleyTukey(xs: array<Complex>, lo: nat, hi: nat, tmp: array<Complex>, w: Twiddle, ghost s: seq<Complex>)
    requires xs != tmp
    requires lo <= hi <= xs.Length && xs[lo..hi] == s
    requires Decimable(hi - lo)
    requires (hi - lo) / 2 <= tmp.Length
    modifies xs, tmp
    ensures xs[..lo] == old(xs[..lo]) && xs[hi..] == old(xs[hi..])
    ensures xs[lo..hi] == Fft(s, w)
    decreases hi - lo
  {
    if hi - lo < 2 {
      return;
    }
    var mid := lo + (hi - lo) / 2;
    ghost var b := xs[..];
    Deinterleave(xs, lo, mid, hi, tmp, b);
    ghost var a := xs[..];

    CooleyTukey(xs, lo, mid, tmp, w, Evens(s));
    ghost var c := xs[..];
    SuffixSlice(c, a, mid, mid, hi);

    CooleyTukey(xs, mid, hi, tmp, w, Odds(s));
    ghost var d := xs[..];
    PrefixSlice(d, c, mid, lo, mid);
    PrefixSlice(d, c, mid, 0, lo);

    Butterflies(xs, lo, mid, hi, w, d);
    ghost var e := xs[..];
    assert e[..lo] == b[..lo] by {
      PrefixSlice(c, a, lo, 0, lo);
    }
    assert e[hi..] == b[hi..] by {
      SuffixSlice(c, a, mid, hi, hi);
    }
  }

  /** The input block as dft_fast hands it to the transform: each sample
      times its window weight, with imaginary part zero. */
  function Windowed(xs: seq<real>, window: Window): (r: seq<Complex>)
    ensures |r| == |xs|
    ensures forall i :: 0 <= i < |r| ==> r[i].im == 0.0
  {
    seq(|xs|, i requires 0 <= i < |xs| => Complex(xs[i] * window(i, |xs|), 0.0))
  }

  /** What dft_fast returns: the squared norms of the first half of the
      transform of the windowed block. */
  function Spectrum(xs: seq<real>, window: Window, w: Twiddle): (r: seq<real>)
    requires |xs| > 0 && |xs| % 2 == 0 && Decimable(|xs|)
    ensures |r| == |xs| / 2
    ensures forall k :: 0 <= k < |r| ==> r[k] >= 0.0
  {
    var f := Fft(Windowed(xs, window), w);
    seq(|xs| / 2, k requires 0 <= k < |xs| / 2 => NormSqr(f[k]))
  }

  /** `dft_fast`: window the block, transform it in place with a scratch of
      half its length, keep the first half of the squared norms. */
  method DftFast(xs: seq<real>, window: Window, w: Twiddle) returns (r: seq<real>)
    requires |xs| > 0 && |xs| % 2 == 0 && Decimable(|xs|)
    ensures r == Spectrum(xs, window, w)
    ensures |r| == |xs| / 2
    ensures forall k :: 0 <= k < |r| ==> r[k] >= 0.0
  {
    var n := |xs|;
    var half := n / 2;
    var tmp := new Complex[half](_ => Zero);
    var xsComplex := new Complex[n](i requires 0 <= i < n => Complex(xs[i] * window(i, n), 0.0));
    assert xsComplex[..] == Windowed(xs, window);
    CooleyTukey(xsComplex, 0, n, tmp, w, xsComplex[..]);
    assert xsComplex[..] == xsComplex[0..n];
    r := seq(half, k requires 0 <= k < half reads xsComplex => NormSqr(xsComplex[k]));
  }
}
