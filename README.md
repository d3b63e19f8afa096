# Audiograter spectral core, modelled in Dafny

Audiograter is a spectrogram viewer. It decodes the first channel of a FLAC file into
samples, cuts the samples into overlapping windows of 8192 samples, and transforms
each window with a radix-2 FFT that it implements itself. It keeps half of each
spectrum and renders the spectrogram as an RGB bitmap.

This project models the parts of that pipeline that are integer arithmetic,
buffer choreography and exact algebra. Floating point is replaced by exact reals.
The cosines and sines of the twiddle factors, the Hann window, the colour map and
the logarithm are parameters.

- `complex.dfy`, module `ComplexNumbers`: the `Complex` type with `mul_add`,
  addition, subtraction and negation.
- `dft.dfy`, module `Dft`: `cooley_tukey`, modelled as methods over an `array`:
  - `Split`, the first copy loop.
  - `CopyBack`, the second copy loop.
  - `Butterflies`, the combine loop.
  - `CooleyTukey`, the recursion sharing one scratch array.

  `Split` and `CopyBack` are proved against `Evens` and `Odds`, `Butterflies`
  against the combine step `Butterfly`, and `CooleyTukey` against the
  recursive function `Fft`. The module also has `dft_fast` (`DftFast`),
  specified by `Spectrum`.
- `dft_reference.dfy`, module `DftReference`: `dft_naive` and the proof that the
  fast transform computes it. The proof only assumes that the twiddle factors
  behave like roots of unity.
- `spectrogram.dfy`, module `Spectrogram`:
  - The constants `WINDOW_LEN`, `SPECTRUM_LEN` and `WINDOW_OFF`.
  - The bit-depth scale of `decode`.
  - The class `Model`, holding the sample buffer and the spectra. Its methods are
    `ComputeSpectrum`, the sample loops of `Decode`, and `Clear`, the reset done
    when a file is opened.
- `bitmap.dfy`, module `Bitmaps`: the row-major RGB layout of `Bitmap::new` and
  `Bitmap::generate`.
- `repaint.dfy`, module `Repaint`: the column-to-spectra mapping of `repaint`, the
  bin clamp, the column mean, and the bitmap `repaint` produces.
- `events.dfy`, module `Events`: the resize coalescing of `run_event_loop`, over a
  finite sequence of batches of pending events.
- `powers.dfy`, module `Powers`: powers of two, the largest `i32`, and the integer
  division facts the other modules use.

The model follows the code:
- A spectrum has N/2 values and no Nyquist bin.
- A trailing partial window stays in the buffer.
- `repaint` takes a plain mean over the spectra of a column.

## Model

| member | source | states |
|---|---|---|
| ComplexNumbers.MulAdd | src/dft.rs:47-52 | the two nested fused multiply-adds per component equal the complex product `self * factor` plus `term` |
| ComplexNumbers.MulAddNegIsSub | src/dft.rs:116 | `c.mul_add(-odd, even)` is `even - c * odd`; subtraction is addition of the negation; negation commutes with the product |
| ComplexNumbers.Add | src/dft.rs:55-63 | the componentwise sum has Zero as its identity on either side |
| ComplexNumbers.Sub | src/dft.rs:65-73 | adding the subtrahend back to the difference gives the minuend, and the difference is the sum with the negation |
| ComplexNumbers.Neg | src/dft.rs:75-83 | the negation is the additive inverse: its sum with the value is Zero on either side |
| ComplexNumbers.NormSqr | src/dft.rs:152 | the squared norm `re*re + im*im` is never negative |
| Powers.ShiftRight | src/main.rs:551 | a right shift by k is the quotient by 2^k: `r * 2^k <= x < (r + 1) * 2^k` |
| Powers.I32MaxIsPow2 | src/main.rs:551 | `i32::MAX` is 2^31 - 1 |
| Dft.Decimable | src/dft.rs:86-90 | a length that passes the checks at every level and is at least 2 satisfies the assertion `half_len * 2 == len`, and so does its half at the next level |
| Dft.Pow2Decimable | src/dft.rs:86-90 | every power of two passes the even-length assertion at every level of the recursion |
| Dft.DecimableIsPow2 | src/dft.rs:86-101 | a positive length that passes the assertion at every level is a power of two |
| Dft.Fft | src/dft.rs:85-118 | the transform keeps the length; a slice shorter than 2 is returned unchanged |
| Dft.CompactStageAt | src/dft.rs:92-95 | after i steps of the first loop, slot `lo + k` (k < i) holds the original value at `lo + 2k`, and every other slot still holds its original value, so no step reads a slot already overwritten |
| Dft.CompactStageComplete | src/dft.rs:92-95 | after the first loop the front half is the evens of the block, and the back half and everything outside are unchanged |
| Dft.ScratchOdds | src/dft.rs:92-93 | the scratch filled by the first loop holds the odds of the block |
| Dft.Split | src/dft.rs:92-95 | the first loop: evens compacted to the front half, odds in the scratch, nothing else in `xs` changed |
| Dft.CopyStageAt | src/dft.rs:96-98 | after i steps of the second loop, slots `mid .. mid + i` hold the scratch prefix and every other slot is unchanged |
| Dft.CopyStageComplete | src/dft.rs:96-98 | after the second loop the back half holds the scratch prefix and everything else is unchanged |
| Dft.CopyBack | src/dft.rs:96-98 | the second loop copies the scratch into the back half and changes nothing else |
| Dft.Deinterleave | src/dft.rs:92-98 | both loops together turn the block into its evens followed by its odds, and change nothing outside it |
| Dft.StageDone | src/dft.rs:107-117 | after i butterfly steps, slot `lo + k` holds `w * odd + even` and slot `mid + k` holds `w * (-odd) + even`, both computed from the values before the loop |
| Dft.StageUntouched | src/dft.rs:107-117 | butterfly step k writes only slots `lo + k` and `mid + k` |
| Dft.StageComplete | src/dft.rs:107-117 | after the butterfly loop the block is the butterfly of its two halves and nothing outside changed |
| Dft.ButterfliesCombine | src/dft.rs:107-117 | the pointwise outputs of the loop form the combine step `Butterfly` of the two halves |
| Dft.Butterflies | src/dft.rs:107-117 | the combine loop turns the two half-transforms into their butterfly and changes nothing outside the block |
| Dft.CooleyTukey | src/dft.rs:85-118 | the slice becomes `Fft` of its contents and nothing outside it changes; a scratch of half the slice length covers the quarter-length scratch both recursive calls need |
| Dft.Windowed | src/dft.rs:138-145 | the windowed block has the input's length and every imaginary part is zero |
| Dft.Spectrum | src/dft.rs:149-153 | the result has exactly N/2 values, each a squared norm and so non-negative |
| Dft.DftFast | src/dft.rs:120-156 | `dft_fast` returns the N/2 squared norms of the transform of the windowed block, each non-negative |
| DftReference.DftNaive | src/dft.rs:19-38 | the direct DFT keeps N/2 values, each non-negative |
| DftReference.ApplyWindow | src/dft.rs:138-145 | windowing keeps the block length |
| DftReference.EvenTerms | src/dft.rs:19-38 | the even-indexed terms of coefficient k are the terms of coefficient k of the evens over the half-length block |
| DftReference.OddTerms | src/dft.rs:19-38 | the odd-indexed terms of coefficient k are `w(N, k)` times the terms of coefficient k of the odds |
| DftReference.SplitCoefficient | src/dft.rs:19-38 | coefficient k equals the even coefficient plus `w(N, k)` times the odd coefficient |
| DftReference.Periodic | src/dft.rs:19-38 | the coefficients of a block of length h repeat with period h |
| DftReference.SingleCoefficient | src/dft.rs:86 | the only coefficient of a one-element block is the element, so returning it unchanged is its DFT |
| DftReference.ButterflyCoefficient | src/dft.rs:107-117 | each combine output is the corresponding coefficient of the direct DFT, given that the halves hold the DFTs of the evens and odds |
| DftReference.FftIsDft | src/dft.rs:85-118 | the radix-2 transform equals the direct DFT at every index, for every length that passes the even-length assertions |
| DftReference.DftFastMatchesNaive | src/dft.rs:120-156 | `dft_fast` of a block equals `dft_naive` of the windowed block |
| DftReference.TestComparesUnwindowed | src/dft.rs:209-218 | for the unit pulse [1, 0] and a window that vanishes at sample 0, `dft_fast` and `dft_naive` of the same block differ |
| DftReference.FastOnSilence | src/dft.rs:133-153 | under a window vanishing at sample 0, `dft_fast` of [a, 0] has power 0 at bin 0 |
| DftReference.NaiveOnPulse | src/dft.rs:19-38 | `dft_naive` of the unit pulse has power 1 at bin 0 |
| Spectrogram.WindowLenDecimable | src/main.rs:30-31 | `WINDOW_LEN` is positive and even, and passes every level's even-length assertion of the transform |
| Spectrogram.WindowCountSpec | src/main.rs:589-597 | window k is counted exactly when `k * WINDOW_OFF + WINDOW_LEN` is within the stream |
| Spectrogram.WindowCountShift | src/main.rs:594-595 | dropping m hops of samples drops exactly m windows |
| Spectrogram.WindowCountUnique | src/main.rs:590 | the window count is the first window that no longer fits |
| Spectrogram.Block | src/main.rs:591 | window k of the stream has exactly `WINDOW_LEN` samples |
| Spectrogram.Spectra | src/main.rs:589-597 | a stream has one spectrum per counted window, each of `SPECTRUM_LEN` values |
| Spectrogram.Leftover | src/main.rs:590-595 | the leftover is a suffix of the stream shorter than a window |
| Spectrogram.SpectraExtend | src/main.rs:573-580 | appending samples never changes a spectrum that was already complete |
| Spectrogram.SampleScale | src/main.rs:549-551 | a scale exists exactly for 1 <= bits < 32 |
| Spectrogram.SampleScaleValue | src/main.rs:551 | `i32::MAX >> (32 - bits)` is 2^(bits-1) - 1, the largest sample value of that bit depth |
| Spectrogram.SupportedRange | src/main.rs:549-552 | the scale is defined and nonzero exactly for 2 <= bits < 32 |
| Spectrogram.InverseScale | src/main.rs:552 | `inv_max` is positive and its product with the scale is 1 |
| Spectrogram.Normalized | src/main.rs:573-575 | converting a block keeps its length |
| Spectrogram.NormalizedAppend | src/main.rs:573-575 | converting two blocks one after the other is converting their concatenation |
| Spectrogram.ConsistentAppend | src/main.rs:573-575 | appending decoded samples to buffer and stream keeps the buffer consistent with the spectra |
| Spectrogram.ConsistentAdvance | src/main.rs:590-595 | with a whole window buffered, appending its spectrum and dropping `WINDOW_OFF` samples keeps the buffer consistent |
| Spectrogram.ConsistentDone | src/main.rs:590 | once less than a window is buffered, the spectra are all windows of the stream and the buffer is the leftover |
| Spectrogram.ConsistentCount | src/main.rs:589-597 | the buffer holds exactly the windows whose spectra are still missing |
| Spectrogram.Model.constructor | src/main.rs:456-467 | a new model has an empty buffer and no spectra |
| Spectrogram.Model.Clear | src/main.rs:519-521 | opening a file empties buffer and spectra |
| Spectrogram.Model.ComputeSpectrum | src/main.rs:589-597 | afterwards the spectra are those of every window of the stream, the buffer is the leftover, shorter than a window, earlier spectra are kept, and `WindowCount` of the old buffer spectra were appended |
| Spectrogram.Model.PushBlock | src/main.rs:573-575 | channel 0 of one block, each sample times `inv_max`, is appended to the buffer; the spectra do not change |
| Spectrogram.Model.PushBlocks | src/main.rs:563-578 | every block read is appended in order; the spectra do not change |
| Spectrogram.Model.Decode | src/main.rs:543-587 | without a reader nothing changes; otherwise the scaled blocks are appended, and unless a read failed every complete window is transformed |
| Bitmaps.Clamp01 | src/main.rs:117-119 | `v.min(1.0).max(0.0)` lies in [0, 1] and is v when v already does |
| Bitmaps.Quantize | src/main.rs:117-119 | channels at or below 0 become byte 0, at or above 1 byte 255 |
| Bitmaps.Channels | src/main.rs:117-119 | a pixel is three bytes |
| Bitmaps.Row | src/main.rs:114-120 | the first x pixels of a row are 3x bytes |
| Bitmaps.Rows | src/main.rs:113-121 | the first y rows are `3 * width * y` bytes |
| Bitmaps.RowAt | src/main.rs:114-120 | channel c of pixel x is at offset `3x + c` of its row |
| Bitmaps.RowsAt | src/main.rs:113-121 | channel c of pixel (x, y) is at offset `3 (y width + x) + c` |
| Bitmaps.NewBitmap | src/main.rs:101-108 | `Bitmap::new` has `width * height * 3` zero bytes, the same layout as a generated all-black bitmap |
| Bitmaps.BlackRow | src/main.rs:101-108 | a row of black pixels is all zero bytes |
| Bitmaps.BlackRows | src/main.rs:101-108 | an all-black bitmap is all zero bytes |
| Bitmaps.Generate | src/main.rs:110-128 | the bitmap has the given size and holds the colour-mapped value of every pixel, row by row and left to right, `3 * width * height` bytes in all |
| Bitmaps.PushRow | src/main.rs:114-120 | the inner loop appends the pixels of one row, left to right |
| Repaint.ColumnStart | src/main.rs:637 | `i_min = x * len / width` rounds down: `i_min * width <= x * len < (i_min + 1) * width` |
| Repaint.ColumnEnd | src/main.rs:638 | `i_max = (x + 1) * len / width` rounds down: `i_max * width <= (x + 1) * len < (i_max + 1) * width` |
| Repaint.ColumnRange | src/main.rs:637-642 | for width > 0, a non-empty spectrogram and x < width, the range `i_min .. max(i_max, i_min + 1)` is non-empty and within the spectrogram |
| Repaint.ColumnsTile | src/main.rs:637-638 | `i_min(0) = 0`, `i_max(x) = i_min(x + 1)`, `i_min(x) <= i_max(x)` and `i_max(width - 1) = len` |
| Repaint.ColumnCovers | src/main.rs:637-642 | every spectrum index below `i_max(k)` lies in the range of some column up to k |
| Repaint.WideColumns | src/main.rs:637-642 | with at least as many spectra as columns, no column's range is empty and the correction never applies |
| Repaint.NarrowColumns | src/main.rs:637-642 | with fewer spectra than columns, every column reads exactly one spectrum |
| Repaint.Bin | src/main.rs:648-649 | the clamped bin is below `SPECTRUM_LEN`; it is j when j is in range and the last bin otherwise |
| Repaint.Intensity | src/main.rs:634-656 | the value handed to the colour map lies in [0, 1], and is 0 for an empty spectrogram |
| Repaint.BinSumBounds | src/main.rs:639-653 | a sum of non-negative bin values bounded by m lies between 0 and `n m / SPECTRUM_LEN` |
| Repaint.MeanBounds | src/main.rs:655 | the mean of a column lies between 0 and the largest value it reads divided by `SPECTRUM_LEN` |
| Repaint.PixelIntensity | src/main.rs:635-656 | the closure of `repaint` computes `Intensity` by its summing loop |
| Repaint.Repaint | src/main.rs:632-658 | the repainted bitmap has the target size and holds the colour-mapped intensity of every pixel |
| Repaint.RepaintPixel | src/main.rs:634-656 | byte c of pixel (x, y) is channel c of the colour of column x's intensity at the bin of row y |
| Events.Coalesced | src/main.rs:471-493 | at most as many events are handled as arrived, and the last event of a batch is always handled |
| Events.NonResizes | src/main.rs:479 | the events kept by the filter are not resizes |
| Events.CoalescedCons | src/main.rs:475-488 | the held event is dropped exactly when it and the next event are both resizes |
| Events.CoalescedKeepsOthers | src/main.rs:479-488 | every event that is not a resize is handled exactly once, in order |
| Events.CoalescedKeeps | src/main.rs:479-492 | every event that is not followed by a resize, or is not a resize, is handled |
| Events.CoalescedFrom | src/main.rs:471-493 | only events of the batch are handled |
| Events.CoalescedSettled | src/main.rs:479-481 | the handled events never contain two resizes in a row |
| Events.FirstResizeKept | src/main.rs:479-481 | a batch starting with a resize is handled starting with a resize |
| Events.SettledUnchanged | src/main.rs:475-488 | a batch without adjacent resizes is handled in full |
| Events.CoalescedIdempotent | src/main.rs:471-493 | coalescing twice is coalescing once |
| Events.DrainingCoalesced | src/main.rs:474-492 | draining the pending events from the held one yields the coalesced batch |
| Events.HandleBatch | src/main.rs:471-493 | one wake-up handles exactly the coalesced batch |
| Events.RunEventLoop | src/main.rs:469-494 | the loop handles the coalesced batches one after the other |
| Events.LoopKeepsOthers | src/main.rs:469-494 | across all batches, every event that is not a resize is handled exactly once, in arrival order |

## Left out

- Floating point: f32 and f64 rounding, fused multiply-add accuracy, infinities and NaN. All arithmetic is on exact reals.
- The twiddle factors `(cos, -sin)` of `2 pi i / len` and the Hann window are function parameters. `DftReference` assumes only four root-of-unity identities of the twiddle.
- `map_y_axis` and `colormap_magma` are not modelled: the bin of a row and the colour map are parameters, and so is `ln`.
- GTK, Cairo and Pango: the view, drawing, ticks, labels and `into_pixbuf` are not modelled.
- Threads and channels are not modelled: the senders and the blocking and non-blocking receives. A batch is given as the event that woke the loop plus the events `try_iter` yields after it, including those a handler posts during the batch (the `Decode` events of src/main.rs:526 and src/main.rs:585).
- Events.HandleBatch: handling is recorded as the sequence of handled events; the effect of each event on the model is in the other modules.
- FLAC I/O through claxon is not modelled: opening the file, the stream info, and reading blocks. One `decode` call receives its blocks (channel 0 only), its bit depth, and whether a read failed after them.
- Spectrogram.Model.Decode: the limit of 100 blocks per call and the re-posted Decode event are not modelled. The model takes the blocks that one call reads.
- Spectrogram.Model.Decode: requires a bit depth from 2 to 31. At 1 bit the scale is 0 and its f32 reciprocal is infinite, which exact reals cannot express. At 32 bits and above the assertion panics; at 0 bits the shift by 32 overflows.
- Spectrogram.Model.Decode: the `repaint` that follows `compute_spectrum` is modelled separately, as `Repaint.Repaint` over the spectra.
- Spectrogram.Model.ComputeSpectrum: `compute_spectrum` calls `dft::dft_fast` with two arguments (src/main.rs:591), while `dft_fast` in src/dft.rs:120 takes one and defines `hann` itself. The model passes the window as a parameter.
- Dft.DftFast: requires a non-empty block. For an empty block `(xs.len() - 1)` underflows: a debug build panics, and a release build wraps, never calls `hann`, and returns an empty result, since `cooley_tukey` returns at once for a length below 2 (src/dft.rs:86).
- Dft.DftFast and Dft.CooleyTukey: require a length that passes the even-length assertion at every level, which is a power of two (`Dft.DecimableIsPow2`). Other lengths panic in the source.
- Repaint.PixelIntensity: requires every spectrum to have `SPECTRUM_LEN` values, which `repaint` asserts.
- Repaint.Repaint: requires width > 0, which `repaint` asserts; a byte count that fits in an i32, as for Bitmaps.Generate below; and spectra of `SPECTRUM_LEN` values each, as for Repaint.PixelIntensity above.
- Bitmaps.NewBitmap and Bitmaps.Generate: require non-negative sizes whose byte count fits in an i32. The sizes `repaint` passes come from Resize events, which `on_size_allocate` builds from `get_graph_size` times the scale factor, and `get_graph_size` clamps each size to at least 1 (src/main.rs:317-323, src/main.rs:337-341). The source itself behaves differently outside this range. An overflowing `width * height * 3` panics in a debug build. A negative product is cast to a huge capacity and the allocation fails. Negative sizes with a non-negative product return normally: `Bitmap::new(-1, -1)` has 3 bytes, and width -5 with height 0 gives an empty bitmap.
- The Nyquist bin and padding of a trailing partial window are not modelled, because the code has neither. A spectrum keeps N/2 values, and a partial window waits in the buffer.
- Model fields `target_size`, `duration` and `sample_rate` are not modelled; they are only used for ticks and painting sizes.

## Findings

| source | as written | input that shows it | evidently intended | confidence | as-written member | corrected member |
|---|---|---|---|---|---|---|
| src/dft.rs:209-218 | the test compares `dft_fast` of a block, which applies the Hann window, with `dft_naive` of the same block without the window | the unit pulse [1, 0]: the Hann window is 0 at sample 0, so `dft_fast` gives [0] while `dft_naive` gives [1] | compare `dft_fast` with `dft_naive` of the windowed block | not executed | DftReference.TestComparesUnwindowed | DftReference.DftFastMatchesNaive |
