/** The sliding sample buffer of the spectrogram model (src/main.rs).
    Decoded samples of channel 0 accumulate in `samples`; as long as a whole
    window is buffered, its spectrum is appended to `spectrum` and the
    buffer advances by WindowOff samples. Windows therefore overlap by
    WindowLen - WindowOff samples, and a trailing partial window is kept
    for later, never padded. */
module Spectrogram {
  import opened Powers
  import opened Dft

  /** The number of samples in one DFT window. */
  const WindowLen: nat := 8192

  /** The number of values in one spectrum. */
  const SpectrumLen: nat := WindowLen / 2

  /** The number of samples between the starts of two windows. */
  const WindowOff: nat := 4096

  /** The window length, 2^13, passes every even-length check of the
      transform. */
  lemma WindowLenDecimable()
    ensures WindowLen > 0 && WindowLen % 2 == 0 && Decimable(WindowLen)
  {
  }

  /** How many windows a stream of n samples holds: one for every start
      k * WindowOff whose window ends within the stream. */
  function WindowCount(n: nat): nat
  {
    if n < WindowLen then 0 else (n - WindowLen) / WindowOff + 1
  }

  /** Window k is counted exactly when it lies within the stream. */
  lemma WindowCountSpec(n: nat, k: nat)
    ensures k < WindowCount(n) <==> k * WindowOff + WindowLen <= n
  {
    if n >= WindowLen {
      var q := (n - WindowLen) / WindowOff;
      assert q * WindowOff <= n - WindowLen < q * WindowOff + WindowOff;
      if k <= q {
        assert k * WindowOff <= q * WindowOff;
      } else {
        assert k * WindowOff >= q * WindowOff + WindowOff;
      }
    }
  }

  /** Dropping the first m windows' worth of samples drops m windows. */
  lemma WindowCountShift(n: nat, m: nat)
    requires m <= WindowCount(n)
    ensures m * WindowOff <= n
    ensures WindowCount(n - m * WindowOff) == WindowCount(n) - m
  {
    if m > 0 {
      WindowCountSpec(n, m - 1);
      var c := WindowCount(n);
      var r := n - m * WindowOff;
      WindowCountSpec(r, c - m);
      WindowCountSpec(n, c);
      assert (c - m) * WindowOff + m * WindowOff == c * WindowOff;
      if c - m > 0 {
        WindowCountSpec(r, c - m - 1);
        WindowCountSpec(n, c - 1);
        assert (c - m - 1) * WindowOff + m * WindowOff == (c - 1) * WindowOff;
      }
      WindowCountUnique(r, c - m);
    }
  }

  /** The window count is the first window that no longer fits. */
  lemma WindowCountUnique(n: nat, c: nat)
    requires c * WindowOff + WindowLen > n
    requires c == 0 || (c - 1) * WindowOff + WindowLen <= n
    ensures WindowCount(n) == c
  {
    WindowCountSpec(n, c);
    if c > 0 {
      WindowCountSpec(n, c - 1);
    }
    if WindowCount(n) < c {
      WindowCountSpec(n, WindowCount(n));
    }
  }

  /** The samples of window k of a stream. */
  function Block(stream: seq<real>, k: nat): (r: seq<real>)
    requires k < WindowCount(|stream|)
    ensures |r| == WindowLen
  {
    WindowCountSpec(|stream|, k);
    stream[k * WindowOff..k * WindowOff + WindowLen]
  }

  /** Every spectrum of a stream, in window order. */
  function Spectra(stream: seq<real>, window: Window, w: Twiddle): (r: seq<seq<real>>)
    ensures |r| == WindowCount(|stream|)
    ensures forall k :: 0 <= k < |r| ==> |r[k]| == SpectrumLen
  {
    WindowLenDecimable();
    seq(WindowCount(|stream|), k requires 0 <= k < WindowCount(|stream|) =>
      Spectrum(Block(stream, k), window, w))
  }

  /** The samples after the last window start that the buffer has passed. */
  function Leftover(stream: seq<real>): (r: seq<real>)
    ensures |r| < WindowLen && |r| <= |stream|
    ensures r == stream[|stream| - |r|..]
  {
    var c := WindowCount(|stream|);
    WindowCountShift(|stream|, c);
    WindowCountSpec(|stream| - c * WindowOff, 0);
    stream[c * WindowOff..]
  }

  /** Appending samples keeps every window that was already complete. */
  lemma SpectraExtend(s: seq<real>, t: seq<real>, window: Window, w: Twiddle)
    ensures WindowCount(|s|) <= WindowCount(|s + t|)
    ensures Spectra(s + t, window, w)[..WindowCount(|s|)] == Spectra(s, window, w)
  {
    var m := WindowCount(|s|);
    if m > 0 {
      WindowCountSpec(|s|, m - 1);
      WindowCountSpec(|s + t|, m - 1);
    }
    var a := Spectra(s + t, window, w);
    var b := Spectra(s, window, w);
    forall k | 0 <= k < m
      ensures a[k] == b[k]
    {
      WindowCountSpec(|s|, k);
      assert Block(s + t, k) == Block(s, k);
    }
  }

  /** The bit-depth scale of decode, `i32::MAX >> (32 - bits)`; None where
      the assertion `bits < 32` fails or the shift amount reaches 32. */
  function SampleScale(bits: nat): (r: Option<nat>)
    ensures r.Some? <==> 1 <= bits < 32
  {
    if 1 <= bits < 32 then Some(ShiftRight(I32Max, 32 - bits)) else None
  }

  /** For 1 <= bits < 32 the scale is the largest sample value of that bit
      depth, 2^(bits-1) - 1. */
  lemma SampleScaleValue(bits: nat)
    requires 1 <= bits < 32
    ensures SampleScale(bits) == Some(Pow2(bits - 1) - 1)
  {
    I32MaxIsPow2();
    Pow2Add(bits - 1, 32 - bits);
    DivPred(Pow2(bits - 1), Pow2(32 - bits));
  }

  datatype Option<T> = None | Some(value: T)

  /** Bit depths decode handles: the assertion holds, the shift is in
      range, and the scale is nonzero so its inverse is finite. */
  predicate Supported(bits: nat)
  {
    SampleScale(bits).Some? && SampleScale(bits).value > 0
  }

  /** Exactly the depths from 2 to 31 bits are supported. */
  lemma SupportedRange(bits: nat)
    ensures Supported(bits) <==> 2 <= bits < 32
  {
    if 1 <= bits < 32 {
      SampleScaleValue(bits);
      if bits >= 2 {
        assert Pow2(bits - 1) == 2 * Pow2(bits - 2);
      }
    }
  }

  /** `inv_max`, the factor each decoded sample is multiplied by. */
  function InverseScale(bits: nat): (r: real)
    requires Supported(bits)
    ensures r > 0.0
    ensures r * SampleScale(bits).value as real == 1.0
  {
    1.0 / SampleScale(bits).value as real
  }

  /** What decode reads in one call: the bit depth of the stream, channel 0
      of each block read, and whether a read after those blocks failed. */
  datatype Reader = Reader(bitsPerSample: nat, blocks: seq<seq<int>>, failed: bool)

  /** Samples converted to floating point: each times the inverse of the
      bit-depth scale. */
  function Normalized(block: seq<int>, inv: real): (r: seq<real>)
    ensures |r| == |block|
  {
    seq(|block|, i requires 0 <= i < |block| => inv * block[i] as real)
  }

  function Concat(blocks: seq<seq<int>>): seq<int>
  {
    if blocks == [] then [] else Concat(blocks[..|blocks| - 1]) + blocks[|blocks| - 1]
  }

  lemma NormalizedAppend(a: seq<int>, b: seq<int>, inv: real)
    ensures Normalized(a + b, inv) == Normalized(a, inv) + Normalized(b, inv)
  {
    var l, r := Normalized(a + b, inv), Normalized(a, inv) + Normalized(b, inv);
    forall i | 0 <= i < |l|
      ensures l[i] == r[i]
    {
      if i < |a| {
        assert (a + b)[i] == a[i];
      } else {
        assert (a + b)[i] == b[i - |a|];
      }
    }
  }

  /** The buffer starts where the spectra end, and each spectrum belongs to
      its own window of the stream. */
  ghost predicate Consistent(stream: seq<real>, spectrum: seq<seq<real>>, samples: seq<real>, window: Window, w: Twiddle)
  {
    |spectrum| <= WindowCount(|stream|) &&
    |spectrum| * WindowOff <= |stream| &&
    samples == stream[|spectrum| * WindowOff..] &&
    spectrum == Spectra(stream, window, w)[..|spectrum|]
  }

  /** Decoding more samples keeps the buffer consistent. */
  lemma ConsistentAppend(stream: seq<real>, spectrum: seq<seq<real>>, samples: seq<real>, t: seq<real>, window: Window, w: Twiddle)
    requires Consistent(stream, spectrum, samples, window, w)
    ensures Consistent(stream + t, spectrum, samples + t, window, w)
  {
    SpectraExtend(stream, t, window, w);
    var m := |spectrum| * WindowOff;
    assert (stream + t)[m..] == stream[m..] + t;
  }

  /** With a whole window buffered, appending its spectrum and dropping
      WindowOff samples keeps the buffer consistent. */
  lemma ConsistentAdvance(stream: seq<real>, spectrum: seq<seq<real>>, samples: seq<real>, window: Window, w: Twiddle)
    requires Consistent(stream, spectrum, samples, window, w) && |samples| >= WindowLen
    ensures WindowLen > 0 && WindowLen % 2 == 0 && Decimable(WindowLen)
    ensures Consistent(stream, spectrum + [Spectrum(samples[..WindowLen], window, w)], samples[WindowOff..], window, w)
  {
    var m := |spectrum|;
    WindowCountSpec(|stream|, m);
    WindowLenDecimable();
    assert samples[..WindowLen] == Block(stream, m);
    assert (m + 1) * WindowOff == m * WindowOff + WindowOff;
  }

  /** Once less than a window is buffered, every window of the stream has
      its spectrum and the buffer holds exactly the leftover. */
  lemma ConsistentDone(stream: seq<real>, spectrum: seq<seq<real>>, samples: seq<real>, window: Window, w: Twiddle)
    requires Consistent(stream, spectrum, samples, window, w) && |samples| < WindowLen
    ensures spectrum == Spectra(stream, window, w)
    ensures samples == Leftover(stream)
  {
    var m := |spectrum|;
    WindowCountSpec(|stream|, m);
    if m > 0 {
      WindowCountSpec(|stream|, m - 1);
    }
    WindowCountUnique(|stream|, m);
  }

  /** The buffer holds exactly the windows whose spectra are still missing. */
  lemma ConsistentCount(stream: seq<real>, spectrum: seq<seq<real>>, samples: seq<real>, window: Window, w: Twiddle)
    requires Consistent(stream, spectrum, samples, window, w)
    ensures WindowCount(|samples|) == WindowCount(|stream|) - |spectrum|
  {
    WindowCountShift(|stream|, |spectrum|);
  }

  class Model {
    /** Decoded samples whose windows have not all been transformed. */
    var samples: seq<real>

    /** The spectra of the windows of the decoded samples, in order. */
    var spectrum: seq<seq<real>>

    /** Every sample decoded since the current file was opened. */
    ghost var stream: seq<real>

    /** The window and twiddle factors dft_fast applies. */
    const window: Window
    const twiddle: Twiddle

    /** The buffer starts where the spectra end, and each spectrum belongs
        to its own window of the stream. */
    ghost predicate Valid()
      reads this
    {
      Consistent(stream, spectrum, samples, window, twiddle)
    }

    constructor (window: Window, twiddle: Twiddle)
      ensures Valid()
      ensures this.window == window && this.twiddle == twiddle
      ensures samples == [] && spectrum == [] && stream == []
    {
      this.window := window;
      this.twiddle := twiddle;
      samples := [];
      spectrum := [];
      stream := [];
    }

    /** Opening a new file clears the leftovers of the previous one. */
    method Clear()
      modifies this
      ensures Valid()
      ensures samples == [] && spectrum == [] && stream == []
    {
      spectrum := [];
      samples := [];
      stream := [];
    }

    /** `compute_spectrum`: transform every complete window of the buffer. */
    method ComputeSpectrum()
      requires Valid()
      modifies this
      ensures Valid() && stream == old(stream)
      ensures spectrum == Spectra(stream, window, twiddle)
      ensures samples == Leftover(stream)
      ensures old(spectrum) <= spectrum
      ensures |spectrum| == |old(spectrum)| + WindowCount(|old(samples)|)
    {
      ConsistentCount(stream, spectrum, samples, window, twiddle);
      while |samples| >= WindowLen
        invariant Valid() && stream == old(stream)
        invariant old(spectrum) <= spectrum
        decreases |samples|
      {
        ConsistentAdvance(stream, spectrum, samples, window, twiddle);
        var dftOfSamples := DftFast(samples[..WindowLen], window, twiddle);
        spectrum := spectrum + [dftOfSamples];
        samples := samples[WindowOff..];
      }
      ConsistentDone(stream, spectrum, samples, window, twiddle);
    }

    /** The inner loop of decode: append one block of channel 0, each sample
        times the inverse scale. */
    method PushBlock(block: seq<int>, inv: real)
      requires Valid()
      modifies this
      ensures Valid()
      ensures stream == old(stream) + Normalized(block, inv)
      ensures samples == old(samples) + Normalized(block, inv)
      ensures spectrum == old(spectrum)
    {
      for i := 0 to |block|
        invariant stream == old(stream) + Normalized(block[..i], inv)
        invariant samples == old(samples) + Normalized(block[..i], inv)
        invariant spectrum == old(spectrum)
      {
        var x := inv * block[i] as real;
        assert Normalized([block[i]], inv)[0] == x;
        assert Normalized([block[i]], inv) == [x];
        NormalizedAppend(block[..i], [block[i]], inv);
        assert block[..i + 1] == block[..i] + [block[i]];
        samples := samples + [x];
        stream := stream + [x];
      }
      assert block[..|block|] == block;
      ConsistentAppend(old(stream), old(spectrum), old(samples), Normalized(block, inv), window, twiddle);
    }

    /** The block loop of decode: append channel 0 of every block read,
        each sample times the inverse scale. */
    method PushBlocks(blocks: seq<seq<int>>, inv: real)
      requires Valid()
      modifies this
      ensures Valid()
      ensures stream == old(stream) + Normalized(Concat(blocks), inv)
      ensures samples == old(samples) + Normalized(Concat(blocks), inv)
      ensures spectrum == old(spectrum)
    {
      for i := 0 to |blocks|
        invariant Valid()
        invariant stream == old(stream) + Normalized(Concat(blocks[..i]), inv)
        invariant samples == old(samples) + Normalized(Concat(blocks[..i]), inv)
        invariant spectrum == old(spectrum)
      {
        PushBlock(blocks[i], inv);
        assert blocks[..i + 1][..i] == blocks[..i];
        assert Concat(blocks[..i + 1]) == Concat(blocks[..i]) + blocks[i];
        NormalizedAppend(Concat(blocks[..i]), blocks[i], inv);
      }
      assert blocks[..|blocks|] == blocks;
    }

    /** `decode` over the blocks one call reads: nothing happens without an
        open reader; otherwise every block is scaled and appended, and the
        complete windows are transformed unless a read failed. */
    method Decode(reader: Option<Reader>)
      requires Valid()
      requires reader.Some? ==> Supported(reader.value.bitsPerSample)
      modifies this
      ensures Valid()
      ensures reader.None? ==> samples == old(samples) && spectrum == old(spectrum) && stream == old(stream)
      ensures reader.Some? ==>
        stream == old(stream) + Normalized(Concat(reader.value.blocks), InverseScale(reader.value.bitsPerSample))
      ensures reader.Some? && !reader.value.failed ==>
        spectrum == Spectra(stream, window, twiddle) && samples == Leftover(stream)
      ensures reader.Some? && reader.value.failed ==>
        spectrum == old(spectrum) &&
        samples == old(samples) + Normalized(Concat(reader.value.blocks), InverseScale(reader.value.bitsPerSample))
    {
      if reader.None? {
        return;
      }
      PushBlocks(reader.value.blocks, InverseScale(reader.value.bitsPerSample));
      if reader.value.failed {
        return;
      }
      ComputeSpectrum();
    }
  }
}
