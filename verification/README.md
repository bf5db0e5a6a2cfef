# Edge-detection convolution, modelled in Dafny

This project models the edge-detection engine of a GIMP plug-in (`ConvolutionPlugin` in
`2D/Convolution.py`). The model has four parts:

- **Kernel catalogue.** Two tables, `kernels_x` and `kernels_y`, map the names `Sobel`,
  `Prewitt` and `Roberts` to the two kernels of a pair. The `kernels_x` entry drives `sumX`
  and the `kernels_y` entry drives `sumY`. Because the engine reads coefficient `k[x][y]`,
  every list `k[x]` of the Sobel and Prewitt `kernels_x` entries sums to 0. So `sumX` is
  blind to change along x and weighs the row above the pixel against the row below it, and
  `sumY` is the reverse. The `Orientation` module proves both facts.
- **Clamp.** `clamp_color_value` limits a value to 0..255.
- **Convolution.** For every pixel, the engine walks a `step`×`step` window of the image.
  The window starts `step / 2` cells to the upper left of the pixel. A coordinate that falls off the
  image is resolved as `dim - abs(i)`. Each sample's grey value is the truncating average of
  its first three channels. The engine builds two weighted sums, one per kernel, with
  coefficient `k[x][y]` for horizontal offset `x` and vertical offset `y`. It then
  synthesises the output pixel in one of two colour modes:
  - mode 1 ("red and blue"): R, G, B = `clamp(sumX)`, `clamp(sumY / 2)`, `clamp(sumY)`;
  - any other mode ("grayscale"): all three channels are `clamp(int(sqrt(sumX² + sumY²)))`.
- **Progress.** After each image row the engine reports the fraction of rows done, and it
  reports 1 at the end.

Modules, one per concept:

- `Arith`: facts about the flat addressing `(x + width*y)*bpp + c`.
- `Color`: clamp, the integer floor square root, and colour synthesis.
- `Kernels`: the catalogue and the sums of kernel coefficients.
- `Raster`: the buffer, pixel addressing, grey values and the border rule.
- `Layout`: a picture given pixel by pixel, laid out row-major into one flat buffer, and the
  slice assignment that writes one pixel in place.
- `Engine`: the convolution as pure functions, plus the properties proved about it.
- `Orientation`: which direction each preset kernel table responds to.
- `Progress`: the progress reports, as exact fractions.
- `Loops`: the nested loops of `convolute` as methods, each proved equal to the `Engine`
  functions.
- `Plugin`: the entry point, with its two failure modes.

Modelling choices:

- The buffer is an immutable `seq<int>`. Its length is `width*height*bpp` and every sample is
  a byte. The host guarantees both, so they are preconditions.
- The source is never modified, because every function returns a new sequence.
- `Engine.Convolve` defines the destination as the output pixels laid end to end in the order
  the loops visit them: rows top to bottom, pixels left to right. `Layout.PixelAt` proves
  that this puts pixel (x,y) at `center_pos = (x + width*y)*bpp`.
- Python 2 `/` on integers is floor division. Dafny's `/` gives the same result whenever the
  divisor is positive, and here the divisor always is (`step / 2`, `sumY / 2`, the `/ 3` of
  the grey average).
- `int(math.sqrt(n))` is modelled by `Color.Isqrt`, the exact integer floor square root.
  `Engine.PresetGradientBound` proves that n never exceeds 2·1020², where a double-precision
  square root followed by truncation gives the same integer.
- In the source, the colour-mode block sits inside the kernel-row loop, so the destination
  pixel is rewritten after every kernel row. `Loops.FilterPixel` reproduces those rewrites.
  Its contract shows that the last rewrite, made with the complete sums, equals the single
  write `Engine.Convolve` describes.
- Two exceptions are modelled as `Plugin.Error` values. An unknown kernel name raises
  `KeyError`. A non-empty image with fewer than three channels per pixel raises `IndexError`,
  at the grey average's read of channel `bpp` (0, 1 or 2).
- Progress values are numerator/denominator pairs. The sequence starts with the 0 sent
  before the loops, has one value per row, and ends with the closing 1.
- The source comments call the border rule "mirror padding". Its arithmetic actually wraps
  around: `-1` reads the last column or row, and `dim` reads column or row 0. The model keeps
  the arithmetic.
- For Roberts (`step = 2`) the half-width is 1, so the window covers offsets −1 and 0.
- The magnitude is truncated by `int(...)`; it is not rounded.
- Roberts is 2×2, so not every kernel has an odd side and a centre cell.
- A resolved index is never clamped. It cannot leave the image, because no preset window
  reaches more than one cell past the border (`Raster.Resolve`).

## Model

| member | source | states |
|---|---|---|
| Kernels.LookupKernels | 2D/Convolution.py:321-324 | Lookup succeeds exactly for "Sobel", "Roberts" and "Prewitt"; any other name fails with that name (KeyError). Both kernels of a found pair are square with side `step`, and `step` is 2 for Roberts and 3 for the others. |
| Kernels.Step | 2D/Convolution.py:324 | `step = len(kernel_x[0])`. `LookupKernels` shows that it is 3 for Sobel and Prewitt and 2 for Roberts. |
| Kernels.KernelsX | 2D/Convolution.py:44-51 | The `kernels_x` matrices, entry for entry. |
| Kernels.KernelsY | 2D/Convolution.py:52-59 | The `kernels_y` matrices, entry for entry. |
| Kernels.Half | 2D/Convolution.py:361-362 | `step / 2` with floor division: `2h <= step < 2h + 2`, so 1 for every preset (`step` 2 or 3). |
| Kernels.PresetsSumToZero | 2D/Convolution.py:44-59 | For every preset, the coefficients of both the `kernels_x` and the `kernels_y` entry sum to 0. |
| Kernels.PresetWeightBounds | 2D/Convolution.py:44-59 | For every preset kernel, the positive coefficients sum to at most 4 and the negative coefficients to at least −4. |
| Color.Clamp | 2D/Convolution.py:134-138 | The result is always in [0,255]. It equals the input when the input is in [0,255], is 0 below that range and 255 above it. |
| Color.ClampIdempotent | 2D/Convolution.py:134-138 | Clamping an already clamped value changes nothing. |
| Color.ClampMonotone | 2D/Convolution.py:134-138 | Clamping preserves order. |
| Color.Isqrt | 2D/Convolution.py:380-381 | The result r is the floor square root of n: r² ≤ n < (r+1)². |
| Color.IsqrtUnique | 2D/Convolution.py:380-381 | Any r with r² ≤ n < (r+1)² equals `Isqrt(n)`, so every exact floor-square-root computation agrees with the model. |
| Color.NoEdgeIsBlack | 2D/Convolution.py:375-381 | With both sums zero, both colour modes give a black pixel. |
| Color.Synthesize | 2D/Convolution.py:375-381 | Three channels, all in [0,255]. Mode 1: clamp(gx), clamp(gy floor-div 2), clamp(gy); G ≤ B; and G = B = 0 when gy < 0. Any other mode: three equal channels m with m² ≤ gx²+gy², and either m = 255 or gx²+gy² < (m+1)². |
| Raster.PixelOffset | 2D/Convolution.py:354-355 | Pixel (x,y) of an in-range image starts at an offset whose `bpp` samples all lie inside the buffer. |
| Raster.OffsetDecodes | 2D/Convolution.py:354-355 | Addressing channel c of pixel (x,y) and decoding the offset gives back x, y and c. |
| Raster.IndexEncodes | 2D/Convolution.py:354-355 | Decoding any buffer offset into pixel and channel and addressing them again gives back the offset, so each sample belongs to exactly one pixel channel. |
| Raster.Grey | 2D/Convolution.py:369-372 | The grey value g is in [0,255] and satisfies 3g ≤ c0+c1+c2 < 3g+3, i.e. it is the truncating average of channels 0..2. No other channel affects it. |
| Raster.Resolve | 2D/Convolution.py:361-366 | For dim ≥ 1 and −1 ≤ i ≤ dim the resolved coordinate lies in [0,dim). In-range coordinates are unchanged, −1 maps to dim−1 and dim maps to 0, so every source read is in bounds. |
| Engine.Sample | 2D/Convolution.py:361-372 | Every grey value read from the window is in [0,255]. It is well defined for any step from 1 to 3 because `Raster.Resolve` guarantees that every window cell resolves to an in-range pixel. |
| Engine.KernelRowSum | 2D/Convolution.py:360-374 | The sum over the first n cells of kernel row y of grey value times `k[x][y]`. Its partners are `KernelRowSumStep`, which gives one loop step, and `KernelRowSumBounds`, which bounds it. |
| Engine.PartialSum | 2D/Convolution.py:359-374 | The running sum after the first `rows` kernel rows. Its partner `PartialSumBounds` bounds it, and `Loops.KernelRowPass` proves that the loop keeps it. |
| Engine.Gradient | 2D/Convolution.py:359-374 | The complete sum of a kernel over the window lies between 255 times the kernel's negative coefficients and 255 times its positive coefficients. |
| Engine.KernelRowSumStep | 2D/Convolution.py:360-374 | One more pass of the kernel-column loop adds the cell's grey value times `k[x][y]` to the kernel row's sum. |
| Engine.Assemble | 2D/Convolution.py:355-382 | Given the two sums, the written pixel has `bpp` byte channels. Channels 0..2 are the synthesised colour, and the others are the centre pixel's own channels in the source. |
| Engine.OutPixel | 2D/Convolution.py:375-382 | The written pixel has `bpp` byte channels. Channels from the fourth on are the centre pixel's own channels in the source. |
| Engine.Convolve | 2D/Convolution.py:352-382 | The destination has exactly the source's length. |
| Engine.ConvolvePixel | 2D/Convolution.py:354-382 | The `bpp` samples at `center_pos` of pixel (x,y) in the output are exactly the pixel synthesised for centre (x,y). |
| Engine.ConvolveSample | 2D/Convolution.py:354-382 | Channel c of pixel (x,y) in the output is channel c of the synthesised pixel for centre (x,y). |
| Engine.ConvolveAt | 2D/Convolution.py:352-382 | Every output sample is its own channel of the output pixel of the pixel it belongs to. It is a byte, and from the fourth channel on it equals the source sample. |
| Engine.ConvolveBytes | 2D/Convolution.py:375-382 | Every sample of the destination is a byte. |
| Engine.ConvolveKeepsExtraChannels | 2D/Convolution.py:355-382 | Every sample of channel 3 or higher equals the source sample at the same offset. |
| Engine.ColourSample | 2D/Convolution.py:375-382 | Each output sample of channels 0..2 is that channel of the colour synthesised from the two complete gradient sums at its own pixel. |
| Engine.UniformSample | 2D/Convolution.py:361-372 | In a constant-colour image every window sample has the grey value of pixel (0,0), at the border too. |
| Engine.UniformKernelRowSum | 2D/Convolution.py:360-374 | Over a constant-colour image, one kernel row sums to the grey value times that row's coefficient sum. |
| Engine.UniformPartialSum | 2D/Convolution.py:359-374 | Over a constant-colour image, the running sum after any number of kernel rows is the grey value times the coefficients visited so far. |
| Engine.UniformGradientsVanish | 2D/Convolution.py:373-374 | For every preset, sumX = sumY = 0 at every pixel of a constant-colour image. |
| Engine.UniformPixelIsBlack | 2D/Convolution.py:373-381 | For every preset and colour mode, channels 0..2 of every output pixel of a constant-colour image are 0. |
| Engine.UniformImageIsBlack | 2D/Convolution.py:373-382 | Filtering a constant-colour image with any preset in either colour mode gives 0 in channels 0..2 of every pixel. |
| Engine.KernelRowSumBounds | 2D/Convolution.py:360-374 | Because grey values are bytes, a kernel row's weighted sum lies between 255 times its negative coefficients and 255 times its positive coefficients. |
| Engine.PartialSumBounds | 2D/Convolution.py:359-374 | The running sum lies between 255 times the negative coefficients visited so far and 255 times the positive ones. |
| Engine.PresetGradientBound | 2D/Convolution.py:373-381 | With a preset kernel, both sums lie in [−1020, 1020], and the argument of the square root is at most 2·1020². |
| Orientation.RowsConstantKernelRowSum | 2D/Convolution.py:360-374 | On an image whose rows are each one grey value, one pass of the kernel-column loop adds that row's grey value times the kernel row's weight. |
| Orientation.RowsConstantPartialSum | 2D/Convolution.py:359-374 | On such an image the running sum equals the regrouped sum: each window row's grey value times its kernel row's weight. |
| Orientation.ColumnsConstantKernelRowSum | 2D/Convolution.py:360-374 | On an image whose columns are each one grey value, one more kernel row adds, for every window column, its grey value times that row's coefficient. |
| Orientation.ColumnsConstantPartialSum | 2D/Convolution.py:359-374 | On such an image the running sum equals the regrouped sum: each window column's grey value times the sum of its coefficients `k[x][0..rows)`. |
| Orientation.PresetWeights | 2D/Convolution.py:44-59 | For Sobel and Prewitt, every list `k[x]` of the `kernels_x` entry and every kernel row of the `kernels_y` entry sums to 0. The other direction weighs c, 0, −c with c = 4 (Sobel) or −3 (Prewitt). |
| Orientation.RowsDifference | 2D/Convolution.py:359-374 | A 3-square kernel whose rows weigh c, 0, −c gives c × (row above − row below) on an image with constant rows, the wrap-around rule included. |
| Orientation.ColumnsDifference | 2D/Convolution.py:359-374 | A 3-square kernel whose lists `k[x]` weigh c, 0, −c gives c × (column left − column right) on an image with constant columns. |
| Orientation.KernelsXBlindAlongX | 2D/Convolution.py:44-51 | For Sobel and Prewitt, sumX is 0 at every pixel of an image whose grey values change only from column to column. |
| Orientation.KernelsYBlindAlongY | 2D/Convolution.py:52-59 | For Sobel and Prewitt, sumY is 0 at every pixel of an image whose grey values change only from row to row. |
| Orientation.KernelsXAlongY | 2D/Convolution.py:44-51 | On an image with constant rows, sumX is 4 × (above − below) for Sobel and 3 × (below − above) for Prewitt. |
| Orientation.KernelsYAlongX | 2D/Convolution.py:52-59 | On an image with constant columns, sumY is 4 × (left − right) for Sobel and 3 × (right − left) for Prewitt. |
| Progress.RowDone | 2D/Convolution.py:384 | The report after row y is in [0,1], and it is exactly 1 after the last row. |
| Progress.Reports | 2D/Convolution.py:336-388 | One run makes height+2 reports, all in [0,1]. The first is 0 and the last is exactly 1. |
| Progress.ProgressedRows | 2D/Convolution.py:337-385 | After `rows` rows the reports sent are 0 followed by (y+1)/height for each finished row y. |
| Progress.ProgressedComplete | 2D/Convolution.py:384-388 | The reports gathered row by row, followed by the closing 1, are exactly `Reports(height)`. |
| Progress.ReportsMonotone | 2D/Convolution.py:384-388 | The reports never decrease. |
| Progress.LastRowCompletes | 2D/Convolution.py:384-388 | When the image has rows, the report after the last row already equals 1. |
| Loops.AccumulateKernelRow | 2D/Convolution.py:360-374 | The kernel-column loop adds to each running sum the grey values of one kernel row, weighted by `k[x][y]`, after resolving coordinates at the border. |
| Loops.ReadSample | 2D/Convolution.py:361-372 | The border fix-up followed by the three-channel average reads exactly `Engine.Sample`: the grey value of the resolved window cell. |
| Loops.Recolour | 2D/Convolution.py:375-381 | The colour-mode block overwrites channels 0..2 of the centre-pixel copy with the synthesised colour and keeps the other channels. |
| Loops.KernelRowPass | 2D/Convolution.py:359-382 | One pass of the kernel-row loop takes both running sums from kernel rows 0..y-1 to rows 0..y. It recolours the centre-pixel copy from the new sums and leaves the destination equal to the original with only that pixel replaced by the copy. |
| Loops.FilterPixel | 2D/Convolution.py:356-382 | The kernel-row loop rewrites the pixel after each kernel row. The result is the destination with only the pixel's slice replaced, by the pixel built from the complete sums. |
| Loops.PixelFinished | 2D/Convolution.py:354-382 | Once pixel (x,y) is written, the destination starts with every output pixel up to and including (x,y) in row-major order. |
| Loops.FilterRow | 2D/Convolution.py:353-382 | If the destination starts with the finished rows above row y, the column loop leaves it starting with the finished rows up to and including y. |
| Loops.ConvoluteLoops | 2D/Convolution.py:352-388 | The row and column loops produce the functional output whatever the destination held before. The reports are 0, then (y+1)/height after each row, then 1. |
| Plugin.EmptyLoops | 2D/Convolution.py:352-388 | On an image without pixels the row loop still runs and reports after every row, the column loop never runs, and the destination equals the (empty) source whatever the channel count. |
| Layout.Splice | 2D/Convolution.py:382 | Slice assignment of a run keeps the buffer length, places the run at its offset and leaves every sample before and after it unchanged. |
| Layout.SpliceTwice | 2D/Convolution.py:375-382 | A second slice assignment of a same-length run at the same offset overrides the first, so only the last rewrite of a pixel remains. |
| Layout.RowsLength | 2D/Convolution.py:352-354 | Laying out `rows` rows of `width` pixels of `bpp` samples each gives `width*rows*bpp` samples. |
| Layout.BeforeLength | 2D/Convolution.py:354 | The pixels before (x,y) in row-major order hold `(x + width*y)*bpp` samples, so `center_pos` is where pixel (x,y) begins. |
| Layout.PixelAt | 2D/Convolution.py:352-354 | In the row-major layout of a whole image, the `bpp` samples at `(x + width*y)*bpp` are pixel (x,y). |
| Layout.PixelWritten | 2D/Convolution.py:352-382 | Writing pixel (x,y) at its row-major offset into a buffer that starts with every earlier pixel leaves a buffer that starts with every pixel up to and including (x,y). |
| Plugin.Convolute | 2D/Convolution.py:314-388 | The run succeeds exactly when the name is in the catalogue and the image is empty or has at least 3 channels. Otherwise it fails with KeyError(name) exactly for names outside the catalogue, and with IndexError exactly when a known kernel meets a non-empty image with fewer than 3 channels. On success the output has the source's length and holds only bytes, channels 3 and up are unchanged, the output is the filtered image, and the progress reports are as above. |
| Plugin.RunConvolute | 2D/Convolution.py:314-388 | Running the loops (`Loops.ConvoluteLoops`, or `EmptyLoops` for an image without pixels) gives exactly the outcome `Convolute` describes, errors included. |

## Left out

- GIMP host plumbing in `convolute` (2D/Convolution.py:326-348, 389-397): progress-bar calls, region acquisition through `mask_bounds`, preview source and drawing, `flush`/`merge_shadow`/`update`/`displays_flush`, and the debug `print` tracing (2D/Convolution.py:318, 350, 386, 398). These are calls into the host or console output. The model takes a single whole-image buffer, so the offset mismatch between the source region (x1,y1) and the destination region (0,0) is not modelled.
- The dialog, radio-button callbacks, preview refresh and selection label (2D/Convolution.py:140-271). These are user interface.
- Shelf settings, run-mode dispatch and undo grouping (2D/Convolution.py:273-312). This is host glue around the engine. The kernel name and colour mode become parameters. Any mode value other than 1, including the string default `'0'`, renders grey, and the model's `mode != 1` covers that.
- Plugin registration and lifecycle (2D/Convolution.py:91-132). These are host API only.
- `3D/source.py` is not part of this model. It is Blender scene binding code with no self-contained logic.
- `tests/2dTest.py` and `tests/3dTest.py` drive the host applications and contain no assertions.
- Floating point: `math.sqrt` becomes an integer floor square root, and progress fractions are exact.
- Plugin.Convolute: an `IndexError` outcome carries no progress reports, although the source has already sent the initial 0 (2D/Convolution.py:337) when it raises. A `KeyError` is raised at 2D/Convolution.py:321, before any report, so that outcome is exact.
- Orientation: the direction lemmas cover Sobel and Prewitt only. Roberts' 2×2 entries weigh diagonal neighbours, and no lemma states their direction.
- Raster.Resolve: its range guarantee covers overshoots of at most one cell. Those are the only overshoots preset windows produce. Further out, `dim - abs(i)` can leave the image, and the model states nothing about that case.
