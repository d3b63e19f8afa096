/** The pixel values `repaint` computes (src/main.rs). Pixel column x of a
    bitmap `width` pixels wide averages the spectra i_min(x) .. i_max(x),
    or the single spectrum i_min(x) when that range is empty, at one
    frequency bin clamped to the last bin; the mean is compressed
    logarithmically and clamped to [0, 1]. The row-to-bin mapping and the
    logarithm work in floating point: the bin is a parameter and `ln` an
    uninterpreted function. */
module Repaint {
  import opened Powers
  import opened Bitmaps
  import opened Spectrogram

  /** `i_min`: the first spectrum of column x. */
  function ColumnStart(x: nat, len: nat, width: nat): (r: nat)
    requires width > 0
    ensures r * width <= x * len < (r + 1) * width
  {
    Quotient(x * len, width)
  }

  /** `i_max`: one past the last spectrum of column x, before the
      non-empty correction. */
  function ColumnEnd(x: nat, len: nat, width: nat): (r: nat)
    requires width > 0
    ensures r * width <= (x + 1) * len < (r + 1) * width
  {
    Quotient((x + 1) * len, width)
  }

  /** The spectra column x averages: `i_min .. i_max.max(i_min + 1)`. The
      range is never empty and stays within the spectrogram. */
  function ColumnRange(x: nat, len: nat, width: nat): (r: (nat, nat))
    requires 0 < width && 0 < len && x < width
    ensures r.0 == ColumnStart(x, len, width)
    ensures r.0 < r.1 <= len
  {
    var lo, hi := ColumnStart(x, len, width), ColumnEnd(x, len, width);
    MulMonotone(x + 1, width, len);
    assert (x + 1) * len == x * len + len;
    DivBelow(x * len, width, len);
    DivAtMost((x + 1) * len, width, len);
    (lo, if hi > lo + 1 then hi else lo + 1)
  }

  /** The columns tile the spectrogram: the first starts at 0, each ends
      where the next starts, starts never decrease, and the last ends at
      `len`. */
  lemma ColumnsTile(len: nat, width: nat, x: nat)
    requires width > 0 && x < width
    ensures ColumnStart(0, len, width) == 0
    ensures ColumnEnd(x, len, width) == ColumnStart(x + 1, len, width)
    ensures ColumnStart(x, len, width) <= ColumnEnd(x, len, width)
    ensures ColumnEnd(width - 1, len, width) == len
  {
    MulMonotone(x, x + 1, len);
    DivMonotone(x * len, (x + 1) * len, width);
    assert (width - 1 + 1) * len == len * width + 0;
    DivUnique(len * width + 0, width, len, 0);
  }

  /** Every spectrum belongs to the range of some column. */
  lemma {:induction false} ColumnCovers(len: nat, width: nat, i: nat, k: nat)
    requires 0 < width && k < width && i < ColumnEnd(k, len, width)
    ensures exists x: nat :: x <= k && ColumnStart(x, len, width) <= i < ColumnEnd(x, len, width)
  {
    if ColumnStart(k, len, width) > i {
      ColumnsTile(len, width, k - 1);
      ColumnCovers(len, width, i, k - 1);
    }
  }

  /** With at least as many spectra as columns, no column's range is empty,
      so the correction to `i_min + 1` never applies. */
  lemma WideColumns(len: nat, width: nat, x: nat)
    requires 0 < width <= len && x < width
    ensures ColumnEnd(x, len, width) >= ColumnStart(x, len, width) + 1
    ensures ColumnRange(x, len, width).1 == ColumnEnd(x, len, width)
  {
    var a := x * len;
    assert (x + 1) * len == a + len;
    DivMonotone(a + width, a + len, width);
    DivAddDivisor(a, width);
  }

  /** With fewer spectra than columns, each column reads exactly one. */
  lemma NarrowColumns(len: nat, width: nat, x: nat)
    requires 0 < len < width && x < width
    ensures ColumnRange(x, len, width).1 == ColumnStart(x, len, width) + 1
  {
    var a := x * len;
    assert (x + 1) * len == a + len;
    DivMonotone(a + len, a + width, width);
    DivAddDivisor(a, width);
  }

  /** `j.min(SPECTRUM_LEN - 1)`: the frequency bin, clamped to the last. */
  function Bin(j: nat): (r: nat)
    ensures r < SpectrumLen
    ensures j < SpectrumLen ==> r == j
    ensures j >= SpectrumLen ==> r == SpectrumLen - 1
  {
    if j < SpectrumLen - 1 then j else SpectrumLen - 1
  }

  /** Every spectrum has SpectrumLen values, as repaint asserts. */
  predicate Uniform(spectrum: seq<seq<real>>)
  {
    forall i :: 0 <= i < |spectrum| ==> |spectrum[i]| == SpectrumLen
  }

  /** The sum of bin b over spectra lo .. hi, each value divided by
      SpectrumLen. */
  function BinSum(spectrum: seq<seq<real>>, lo: nat, hi: nat, b: nat): real
    requires lo <= hi <= |spectrum| && Uniform(spectrum) && b < SpectrumLen
  {
    if hi == lo then 0.0
    else BinSum(spectrum, lo, hi - 1, b) + Term(spectrum, hi - 1, b)
  }

  /** The mean column x shows at bin j. */
  function ColumnMean(spectrum: seq<seq<real>>, width: nat, x: nat, j: nat): real
    requires 0 < width && x < width && 0 < |spectrum| && Uniform(spectrum)
  {
    var r := ColumnRange(x, |spectrum|, width);
    BinSum(spectrum, r.0, r.1, Bin(j)) / (r.1 - r.0) as real
  }

  /** The value the closure of repaint hands to the colour map. */
  function Intensity(spectrum: seq<seq<real>>, width: nat, x: nat, j: nat, ln: real -> real): (t: real)
    requires 0 < width && x < width && Uniform(spectrum)
    ensures 0.0 <= t <= 1.0
    ensures |spectrum| == 0 ==> t == 0.0
  {
    if |spectrum| == 0 then 0.0
    else Clamp01(0.5 + ln(ColumnMean(spectrum, width, x, j)) * 0.05)
  }

  /** The value spectrum i contributes to the sum for bin b. */
  function Term(spectrum: seq<seq<real>>, i: nat, b: nat): real
    requires i < |spectrum| && Uniform(spectrum) && b < SpectrumLen
  {
    spectrum[i][b] / SpectrumLen as real
  }

  /** A sum of n terms, each between 0 and c, lies between 0 and n c. */
  lemma {:induction false} BinSumBounds(spectrum: seq<seq<real>>, lo: nat, hi: nat, b: nat, c: real)
    requires lo <= hi <= |spectrum| && Uniform(spectrum) && b < SpectrumLen
    requires forall i :: lo <= i < hi ==> 0.0 <= Term(spectrum, i, b) <= c
    ensures 0.0 <= BinSum(spectrum, lo, hi, b) <= (hi - lo) as real * c
  {
    if hi > lo {
      BinSumBounds(spectrum, lo, hi - 1, b, c);
      assert BinSum(spectrum, lo, hi, b) == BinSum(spectrum, lo, hi - 1, b) + Term(spectrum, hi - 1, b);
      MulSucc((hi - 1 - lo) as real, c);
    }
  }

  lemma MulSucc(n: real, c: real)
    ensures (n + 1.0) * c == n * c + c
  {
  }

  /** The mean of a column lies between 0 and the largest value it reads,
      divided by SpectrumLen, when the spectra are non-negative: they are
      squared norms. */
  lemma MeanBounds(spectrum: seq<seq<real>>, width: nat, x: nat, j: nat, m: real)
    requires 0 < width && x < width && 0 < |spectrum| && Uniform(spectrum)
    requires forall i :: 0 <= i < |spectrum| ==> 0.0 <= spectrum[i][Bin(j)] <= m
    ensures 0.0 <= ColumnMean(spectrum, width, x, j) <= m / SpectrumLen as real
  {
    var r := ColumnRange(x, |spectrum|, width);
    var c := m / SpectrumLen as real;
    forall i | r.0 <= i < r.1
      ensures 0.0 <= Term(spectrum, i, Bin(j)) <= c
    {
      assert 0.0 <= spectrum[i][Bin(j)] <= m;
    }
    BinSumBounds(spectrum, r.0, r.1, Bin(j), c);
    QuotientBounds(BinSum(spectrum, r.0, r.1, Bin(j)), (r.1 - r.0) as real, c);
  }

  lemma QuotientBounds(s: real, n: real, c: real)
    requires n > 0.0 && 0.0 <= s <= n * c
    ensures 0.0 <= s / n <= c
  {
  }

  /** The closure of repaint for pixel column x and bin j. */
  method PixelIntensity(spectrum: seq<seq<real>>, width: nat, x: nat, j: nat, ln: real -> real) returns (t: real)
    requires 0 < width && x < width && Uniform(spectrum)
    ensures t == Intensity(spectrum, width, x, j, ln)
  {
    if |spectrum| == 0 {
      return 0.0;
    }
    var iMin := x * |spectrum| / width;
    var iMax := (x + 1) * |spectrum| / width;
    var hi := if iMax > iMin + 1 then iMax else iMin + 1;
    assert (iMin, hi) == ColumnRange(x, |spectrum|, width);
    var value := 0.0;
    var n := 0.0;
    for i := iMin to hi
      invariant value == BinSum(spectrum, iMin, i, Bin(j))
      invariant n == (i - iMin) as real
    {
      var spectrumI := spectrum[i];
      var sample := spectrumI[Bin(j)] / SpectrumLen as real;
      value := value + sample;
      n := n + 1.0;
    }
    value := value / n;
    t := Clamp01(0.5 + ln(value) * 0.05);
  }

  /** The closure repaint passes to generate: the intensity of pixel
      (x, y), with row y mapped to a frequency bin by `bin`. */
  function IntensityAt(spectrum: seq<seq<real>>, width: nat, bin: nat -> nat, ln: real -> real): (nat, nat) -> real
    requires 0 < width && Uniform(spectrum)
  {
    (x: nat, y: nat) => if x < width then Intensity(spectrum, width, x, bin(y), ln) else 0.0
  }

  /** `repaint`: a bitmap of the target size, each pixel coloured by the
      mean of its column at the bin of its row. */
  method Repaint(spectrum: seq<seq<real>>, width: nat, height: nat, bin: nat -> nat, ln: real -> real, colormap: real -> Rgb)
    returns (b: Bitmap)
    requires 0 < width && width * height * 3 <= I32Max && Uniform(spectrum)
    ensures b.width == width && b.height == height
    ensures b.data == Rows(Painted(IntensityAt(spectrum, width, bin, ln), colormap), width, height)
  {
    b := Generate(width, height, IntensityAt(spectrum, width, bin, ln), colormap);
  }

  /** Byte c of pixel (x, y) of the repainted bitmap is channel c of the
      colour the map gives the intensity of column x at the bin of row y. */
  lemma RepaintPixel(spectrum: seq<seq<real>>, width: nat, height: nat, bin: nat -> nat, ln: real -> real,
                     colormap: real -> Rgb, x: nat, y: nat, c: nat)
    requires 0 < width && Uniform(spectrum) && x < width && y < height && c < 3
    ensures 3 * (y * width + x) + c < |Rows(Painted(IntensityAt(spectrum, width, bin, ln), colormap), width, height)|
    ensures Rows(Painted(IntensityAt(spectrum, width, bin, ln), colormap), width, height)[3 * (y * width + x) + c]
         == Channels(colormap(Intensity(spectrum, width, x, bin(y), ln)))[c]
  {
    var pixel := Painted(IntensityAt(spectrum, width, bin, ln), colormap);
    RowsAt(pixel, width, height, x, y, c);
    assert pixel(x, y) == colormap(Intensity(spectrum, width, x, bin(y), ln));
  }
}
