# Bicubic and bilinear image resampling, modelled in Dafny

This project models the resampling engine of a small image-resizing repository. Images are
dense H x W x C arrays of uint8 samples, indexed `[row, column, channel]`. The model
covers five parts:

- **Kernel** (`kernel.dfy`): the Keys cubic convolution kernel `u(s, a)` and the four-tap
  weight vector built from it.
- **Padding** (`padding.dfy`): `padding` extends the image by a margin of 2 on every side.
  The margin replicates the nearest edge sample. The model keeps the source's nine slice
  assignments into a zero float buffer.
- **Bicubic resampler** (`bicubic.dfy`): `bicubic` keeps the aspect ratio (height
  `floor(new_width * H / W)`). A triple `c / i / j` loop maps every destination pixel to the
  top-left-aligned source coordinate `j * W / new_width` (plus 2 for the margin). It weights
  the surrounding 4 x 4 window of the padded buffer, then clips to [0, 255] and truncates
  to uint8.
- **Bilinear resampler** (`bilinear.dfy`): `bi_interpolation` and
  `resize_image_aspect_ratio` blend the four samples around the same coordinates. The
  right and bottom neighbours are clamped to the last column and row. The result is
  written into a uint8 buffer one channel at a time.
- **Round-trip harness** (`roundtrip.dfy`) and **comparison** (`compare.dfy`):
  - The harness resizes forward to a new width and back, a number of times. It measures
    the error against the original, then resizes the cycled image forward once more.
  - The comparison resizes the same image to the same width with both resamplers.

`coordinates.dfy` holds the shared coordinate mapping. `images.dfy` holds the sample type
and the clamping and casting helpers.

Arithmetic is exact: the model uses `real` where the source uses float64, and `.Floor`
where it uses `np.floor` or `int` on non-negative values.

Every resampler is an imperative method over arrays. Each method is proved against a
specification function of the source image:
- `Bicubic.BicubicAt` for the bicubic resampler;
- `Bilinear.BilinearAt` for the bilinear one;
- `Padding.PadAt` for the padding.

The lemmas then prove what those functions promise: identity at the same size, constants
kept constant, windows in bounds, and the border extension.

`compare_all_interpolations.py` repeats `u`, `padding`, `bicubic`, `bi_interpolation` and
`resize_image_aspect_ratio` verbatim. The same members model both copies, and the
table cites both.

## Model

| member | source | states |
|---|---|---|
| Kernel.U | bicubic.py:5-11 | the kernel is 1 at 0, 0 at distance 1 and 0 from distance 2 on, whatever the sharpness; the copy at compare_all_interpolations.py:5-11 is the same |
| Kernel.KernelSymmetric | bicubic.py:5-6 | u(-s) == u(s): the kernel depends only on abs(s) |
| Kernel.BranchesMeet | bicubic.py:7-10 | both cubic pieces are 0 at distance 1 and the outer piece is 0 at distance 2, so the kernel is continuous |
| Kernel.OuterShifted | bicubic.py:10 | the outer piece at distance e + 1 is a(e^3 - 2e^2 + e) |
| Kernel.PartitionOfUnity | bicubic.py:52-53 | for every fraction d in [0, 1) and every sharpness, u(d+1) + u(d) + u(1-d) + u(2-d) == 1 |
| Kernel.CubicWeights | bicubic.py:52-53 | the four weights sum to 1 for a fraction in [0, 1), and a whole coordinate gives [0, 1, 0, 0] |
| Kernel.NegativeLobe | bicubic.py:52-53 | with the default sharpness the weights at fraction 1/2 are [-1/16, 9/16, 9/16, -1/16]: both outer weights are negative |
| Coordinates.AspectHeight | bicubic.py:31-32 | the new height is the floor of new_width * H / W: r * W <= new_width * H < (r + 1) * W |
| Coordinates.AspectHeightOfSameWidth | bilinear.py:29-32 | keeping the width keeps the height |
| Coordinates.Ratio | bicubic.py:37-38 | the step times the destination size is the source size, and the step is positive |
| Coordinates.SourceCoord | bilinear.py:36-40 | destination index k maps to the non-negative source coordinate x with x * dst == k * src, the same mapping as bicubic.py:43-44 |
| Coordinates.SourceCoordInRange | bilinear.py:36-42 | every destination index maps into [0, size), so its floor is a valid source index |
| Coordinates.SourceCoordOfSameSize | bilinear.py:36-40 | at the same size every index maps onto itself |
| Images.Clamp | bilinear.py:9-10 | the clamped index lies in [lo, hi] and is the index itself, lo or hi by case |
| Images.ClipToByte | bicubic.py:58 | clipping then truncating gives 0 below 0, 255 from 255 up, and the floor in between |
| Images.TruncToByte | bilinear.py:34-45 | a float in [0, 256) stored into a uint8 buffer is its floor |
| Images.WholeSampleSurvivesCasts | bicubic.py:58 | a whole uint8 value survives both casts unchanged |
| Padding.SliceAssign | bicubic.py:15-26 | one slice assignment writes its block from the indexed source and leaves every other cell unchanged |
| Padding.FillBlock | bicubic.py:15-26 | a slice assignment whose indices are the clamped ones adds its block to the part of the buffer already holding the border extension |
| Padding.BlockOf | bicubic.py:14-26 | the nine blocks of the source tile the (H+4) x (W+4) buffer |
| Padding.BlocksMakePadding | bicubic.py:14-26 | once the nine blocks hold the border extension, every cell does |
| Padding.PadAt | bicubic.py:13-27 | the value of padded cell (r, k): the source sample at the row and column clamped into the image, hence in [0, 255] |
| Padding.Pad | bicubic.py:13-27 | the result is a newly allocated (H+4) x (W+4) x C buffer and every cell is the source sample at the clamped row and column; the copy at compare_all_interpolations.py:13-27 is the same |
| Padding.PaddingInterior | bicubic.py:15 | the interior is an exact copy of the source |
| Padding.PaddingKeepsNoZero | bicubic.py:14-26 | a cell of the padded buffer is 0 exactly when the sample at its clamped row and column is 0, so no cell keeps the initial zero by being left unwritten |
| Padding.PaddingReplicatesBorder | bicubic.py:17-26 | the strips repeat the first and last row and column, and the corner blocks repeat the corner samples |
| Bicubic.InterpOfUniformWindow | bicubic.py:56 | a window of equal samples weighted by vectors that each sum to 1 gives that sample |
| Bicubic.Dot4 | bicubic.py:56 | the dot product of two 4-vectors, as `np.dot` computes it |
| Bicubic.Interp | bicubic.py:56 | the window weighted by wy along rows and wx along columns; the weights [0, 1, 0, 0] on both axes select the window's sample (1, 1) |
| Bicubic.Window | bicubic.py:55 | the 4 x 4 slice starting at (r0, k0): its sample (r, k) is the buffer's sample (r0 + r, k0 + k) |
| Bicubic.WindowOfPadding | bicubic.py:55 | a 4 x 4 slice of the padded buffer equals the same window read through the clamped source |
| Bicubic.WindowInsidePadded | bicubic.py:43-55 | the padded coordinate's floor lies in [2, size + 1], so the slice from floor - 1 to floor + 3 is inside the buffer |
| Bicubic.PixelOfPadding | bicubic.py:43-56 | the loop body's computation on the padded buffer equals the bicubic value defined on the source |
| Bicubic.BicubicAt | bicubic.py:43-56 | the unclipped value of destination pixel (i, j): the Keys weights of the fractions of j * W / new_width + 2 and i * H / new_height + 2, applied to the 4 x 4 window of the border extension around their floors |
| Bicubic.Sample | bicubic.py:43-56 | one inner-loop pass yields exactly the bicubic value of that destination pixel |
| Bicubic.FillRow | bicubic.py:42-56 | the innermost loop fills row i of channel c with the bicubic values and changes nothing else |
| Bicubic.FillChannel | bicubic.py:41-56 | the middle loop fills channel c and changes no other channel |
| Bicubic.ClipToBytes | bicubic.py:58 | the result is a newly allocated array of the same shape whose every sample is the clipped, truncated float sample |
| Bicubic.Bicubic | bicubic.py:29-58 | the output is a newly allocated floor(new_width * H / W) x new_width x C array, and every sample is the clipped bicubic value of its pixel; the copy at compare_all_interpolations.py:29-59 is the same |
| Bicubic.BicubicIdentity | bicubic.py:37-58 | resizing to the source's own width keeps the height and returns every sample unchanged |
| Bicubic.BicubicOfUniform | bicubic.py:49-58 | an image whose samples all equal k resamples to k everywhere, whatever the sharpness |
| Bicubic.ClipIsNeeded | bicubic.py:52-58 | with the default sharpness, a 4-column image whose every row reads 255, 0, 0, 255, resized to width 8, has an unclipped value below 0 at column 3, so without the clip the cast would not give the sample 0 |
| Bilinear.BilinearWeights | bilinear.py:17-23 | the four weights are non-negative and sum to 1, and whole coordinates put all weight on p11 |
| Bilinear.ConvexCombinationBounds | bilinear.py:20-23 | a blend with non-negative weights summing to 1 lies between the least and greatest tap |
| Bilinear.Taps | bilinear.py:7-15 | the four taps read in-bounds samples, with the next row and column clamped, each in [0, 255] |
| Bilinear.Blend | bilinear.py:17-25 | the blend lies between the least and greatest tap, and zero fractions return p11 |
| Bilinear.BiInterpolation | bilinear.py:5-25 | the interpolated value lies between its taps, hence in [0, 255], and a whole coordinate returns the sample there; the copy at compare_all_interpolations.py:62-82 is the same |
| Bilinear.Sample | bilinear.py:36-45 | one grid point, j * x_ratio and i * y_ratio, blended and truncated, is the resize's sample |
| Bilinear.BilinearAt | bilinear.py:36-45 | the uint8 sample at destination pixel (i, j): the blend at (j * W / new_width, i * H / new_height), truncated |
| Bilinear.WriteRow | bilinear.py:45 | one row of the channel assignment gets its samples and nothing else changes |
| Bilinear.WriteChannel | bilinear.py:44-45 | channel c receives the blended grid and every other channel is unchanged |
| Bilinear.Resize | bilinear.py:27-47 | the output is a newly allocated new_height x new_width x C array, with new_height the given one or else floor(new_width * H / W), and every sample is the truncated blend; the copy at compare_all_interpolations.py:84-104 is the same |
| Bilinear.TargetHeight | bilinear.py:31-32 | the height is the one given, or else floor(new_width * H / W): r * W <= new_width * H < (r + 1) * W |
| Bilinear.BilinearIdentity | bilinear.py:20-45 | resizing to the source's own width and height returns every sample unchanged |
| Bilinear.BilinearOfSinglePixel | bilinear.py:9-23 | a 1 x 1 source resizes to its one pixel everywhere |
| Bilinear.BilinearOfUniform | bilinear.py:20-25 | an image whose samples all equal k resizes to k everywhere, at any size |
| Bilinear.ChannelsIndependent | bilinear.py:44-45 | output channel c depends only on input channel c |
| RoundTrip.AbsDiff | bicubic.py:76 | the corrected absolute difference is zero exactly when the samples agree, at most 255, and is a - b or b - a |
| RoundTrip.SquaredDiff | bicubic.py:78 | the corrected squared difference is zero exactly when the samples agree, at most 255^2 |
| RoundTrip.DiffsSymmetric | bilinear.py:65-67 | both corrected differences are symmetric |
| RoundTrip.WrappedDiff | bicubic.py:76 | the uint8 difference is the byte that, added to b, wraps to a |
| RoundTrip.WrappedAbsDiff | bicubic.py:76 | the uint8 absolute difference is a - b when a >= b and 256 - (b - a) otherwise |
| RoundTrip.WrappedSquaredDiff | bicubic.py:78 | the uint8 square of the uint8 difference is the true square (a - b)^2 wrapped once modulo 256, and it is 0 exactly when a - b is a multiple of 16 |
| RoundTrip.SquareMod256 | bicubic.py:78 | a square t^2 is a multiple of 256 exactly when t is a multiple of 16 |
| RoundTrip.WrappedAbsDiffAgreement | bilinear.py:65 | the uint8 absolute difference is correct exactly when a >= b or b - a == 128 |
| RoundTrip.WrappedAbsDiffCounterexample | bicubic.py:76 | original 0 and reconstruction 1 count as error 255 instead of 1 |
| RoundTrip.WrappedSquaredDiffCounterexample | bicubic.py:78 | a difference of 16 counts as squared error 0 instead of 256 |
| RoundTrip.PixelSumZeroIff | bicubic.py:76-77 | a pixel's summed error is zero exactly when all its channels agree |
| RoundTrip.RowSumZeroIff | bicubic.py:76-77 | a row's summed error is zero exactly when all its samples agree |
| RoundTrip.ErrorSumZeroIff | bicubic.py:76-77 | the summed error over the rows is zero exactly when those rows agree |
| RoundTrip.Measure | bicubic.py:76-78 | the report counts H * W * C samples, and either error sum is zero exactly when the images agree under broadcasting; the bilinear harness at bilinear.py:65-67 measures the same way |
| RoundTrip.MeanAbsoluteError | bicubic.py:77 | the mean absolute error is non-negative and zero exactly when the summed error is |
| RoundTrip.CycleHeight | bicubic.py:71-72 | one forward-and-back bicubic cycle never gains a row |
| RoundTrip.HeightAfter | bicubic.py:70-72 | after any number of cycles the height is at most the original |
| RoundTrip.CyclesSucceedPrefix | bicubic.py:70-72 | if n cycles run without error, so do the first k |
| RoundTrip.NoCycleAfterFailure | bicubic.py:70-72 | once a cycle hits a zero height, no larger cycle count succeeds |
| RoundTrip.DriftExample | bicubic.py:70-72 | a 2 x 3 image cycled through width 2 comes back with 1 row |
| RoundTrip.ShapeMismatchExample | bicubic.py:76 | a 4 x 3 image cycled through width 2 comes back 3 x 3, and the harness fails on the difference |
| RoundTrip.ZeroHeightExample | bicubic.py:38-72 | a 1 x 3 image forward to width 5 and back gets height 0, and the harness fails |
| RoundTrip.BicubicRoundTrip | bicubic.py:63-81 | succeeds exactly when no resize gets a zero height and the cycled image broadcasts. Fails with a shape mismatch exactly in the drift case. On success: the cycled height is the n-cycle height; with no cycles there is one forward resize and no report; otherwise the report measures the cycled image before the final forward resize |
| RoundTrip.BilinearRoundTrip | bilinear.py:52-70 | succeeds exactly when the forward height is non-zero and never fails on shapes; the cycled image is H x W x C, the report measures it, and the final image is its forward resize |
| Compare.CompareResamplers | compare_all_interpolations.py:128-131 | both results have the shape floor(new_width * H / W) x new_width x C and are the resizes each resampler defines |
| Compare.ResamplersKeepConstant | compare_all_interpolations.py:52-80 | a constant image stays the same constant under both resamplers |

## Left out

- Image decoding and conversion to an array, all plotting and the key handler, the printed metrics and the `try`/`except` wrapper are left out. They are foreign I/O and UI code. The image is an input array.
- RMSE and the L2 norm need square roots. The error report carries the sum of squared differences and the sample count, from which both follow.
- IEEE float64 rounding is not modelled. Arithmetic is exact, so cases where float error moves a coordinate across an integer are not reproduced. Neither are cases where `int(new_width * (H / W))` differs from the exact floor, or where a blend that is exactly k in exact arithmetic comes out just below k and truncates to k - 1.
- numpy vectorisation (`meshgrid`, fancy indexing) becomes the equivalent per-pixel loops in Bilinear.WriteChannel and Bilinear.WriteRow.
- Bicubic.Bicubic: a zero new width or a zero aspect height raises ZeroDivisionError in the source. Here these are preconditions; the harness models them as a `ZeroDivision` failure.
- Bilinear.Resize: likewise, a zero new width or a zero target height, given or derived, is a precondition rather than an error result.
- Bilinear.BiInterpolation: requires coordinates in [0, width) x [0, height). Those are the only ones the resampler produces. Negative indices, which numpy would wrap, never arise.
- Bicubic.FillRow, Bicubic.FillChannel, Bilinear.WriteRow: they state the final value of every cell. They do not state that each cell is written exactly once.
- RoundTrip.BicubicRoundTrip: states the shape after every cycle, the report and the final resize. It does not state the cycled image's samples as a closed form of the original.
- RoundTrip.BilinearRoundTrip: likewise, it does not relate the cycled samples to the original beyond the report.
- RoundTrip.Measure: it uses the corrected whole-number differences, not the uint8 wrap-around of the source; see Findings.
- The harness constants for the cycle count and the new width become parameters of the harness methods.
- `image_array.copy()` is modelled as reusing the original array, which the harness never writes.
- Source images have at least one row and one column, which any decoded image does.

## Findings

| source | as written | input that shows it | evidently intended | confidence | as-written member | corrected member |
|---|---|---|---|---|---|---|
| bicubic.py:76 | the original and the cycled image are both uint8, so their difference wraps modulo 256 before the absolute value is taken | original sample 0, cycled sample 1: counted as 255 | absolute difference 1 | high; not executed | RoundTrip.WrappedAbsDiffCounterexample | RoundTrip.AbsDiff |
| bilinear.py:65 | the same uint8 wrap-around in the bilinear harness's absolute error | original sample 0, cycled sample 1: counted as 255 | absolute difference 1 | high; not executed | RoundTrip.WrappedAbsDiffAgreement | RoundTrip.Measure |
| bicubic.py:78 | the wrapped uint8 difference is squared in uint8, so the square wraps too | original sample 16, cycled sample 0: squared error counted as 0 | squared difference 256 | high; not executed | RoundTrip.WrappedSquaredDiffCounterexample | RoundTrip.SquaredDiff |
