/** The convolution engine as pure functions: the window samples around a pixel, the two
    weighted gradient sums, the synthesised output pixel, and the whole output buffer. */
module Engine {

  import opened Arith
  import opened Color
  import opened Kernels
  import opened Layout
  import opened Raster

  /** The inputs of one window: a readable image, an in-range centre pixel and a
      `step`-square kernel whose window overshoots the border by at most one cell. */
  ghost predicate Window(img: Image, k: Matrix, step: nat, px: nat, py: nat)
  {
    Readable(img) && 1 <= step <= 3 && IsSquare(k, step) && px < img.width && py < img.height
  }

  /** Grey value read for window cell `(x, y)` around centre `(px, py)`: the sample
      coordinate `p - step/2 + offset` is resolved against the border in each axis. */
  function Sample(img: Image, step: nat, px: nat, py: nat, x: nat, y: nat): (g: int)
    requires Readable(img) && 1 <= step <= 3 && px < img.width && py < img.height
    requires x < step && y < step
    ensures 0 <= g <= 255
  {
    var sx := Resolve(px - Half(step) + x, img.width);
    var sy := Resolve(py - Half(step) + y, img.height);
    Grey(img, sx, sy)
  }

  /** Weighted sum over the first `n` cells of kernel row `y`, each weighed by `k[x][y]`. */
  function KernelRowSum(img: Image, k: Matrix, step: nat, px: nat, py: nat, y: nat, n: nat): int
    requires Window(img, k, step, px, py) && y < step && n <= step
  {
    if n == 0 then 0
    else KernelRowSum(img, k, step, px, py, y, n - 1) + Times(Sample(img, step, px, py, n - 1, y), k[n - 1][y])
  }

  /** One more cell of kernel row `y` adds its grey value times its coefficient. */
  lemma KernelRowSumStep(img: Image, k: Matrix, step: nat, px: nat, py: nat, y: nat, n: nat, g: int)
    requires Window(img, k, step, px, py) && y < step && n < step
    requires g == Sample(img, step, px, py, n, y)
    ensures KernelRowSum(img, k, step, px, py, y, n + 1) == KernelRowSum(img, k, step, px, py, y, n) + g * k[n][y]
  {
    TimesIsProduct(g, k[n][y]);
  }

  /** Weighted sum over the first `rows` kernel rows: the running sum after `rows` passes of
      the kernel-row loop. */
  function PartialSum(img: Image, k: Matrix, step: nat, px: nat, py: nat, rows: nat): int
    requires Window(img, k, step, px, py) && rows <= step
  {
    if rows == 0 then 0
    else PartialSum(img, k, step, px, py, rows - 1) + KernelRowSum(img, k, step, px, py, rows - 1, step)
  }

  /** The full gradient response of kernel `k` at `(px, py)`: between 255 times the kernel's
      negative and 255 times its positive coefficients. */
  function Gradient(img: Image, k: Matrix, step: nat, px: nat, py: nat): (g: int)
    requires Window(img, k, step, px, py)
    ensures IsSquare(PositivePart(k), step) && IsSquare(NegativePart(k), step)
    ensures 255 * Weight(NegativePart(k), step, step) <= g <= 255 * Weight(PositivePart(k), step, step)
  {
    PartialSumBounds(img, k, step, px, py, step);
    PartialSum(img, k, step, px, py, step)
  }

  /** The pixel written at `(px, py)` once the sums are known: the three synthesised channels
      followed by the centre pixel's own channels from the fourth on. */
  function Assemble(img: Image, mode: int, px: nat, py: nat, gx: int, gy: int): (p: seq<int>)
    requires Readable(img) && px < img.width && py < img.height
    ensures |p| == img.bpp
    ensures forall c :: 0 <= c < img.bpp ==> IsByte(p[c])
    ensures forall c :: 0 <= c < 3 ==> p[c] == Synthesize(mode, gx, gy)[c]
    ensures forall c :: 3 <= c < img.bpp ==> p[c] == Channel(img, px, py, c)
  {
    var o := PixelOffset(img, px, py);
    var head := Synthesize(mode, gx, gy);
    var rest := img.data[o + 3 .. o + img.bpp];
    assert forall c :: 3 <= c < img.bpp ==> rest[c - 3] == Channel(img, px, py, c);
    head + rest
  }

  /** The pixel written at `(px, py)`: the pixel assembled from both gradient responses. */
  function OutPixel(img: Image, kp: KernelPair, mode: int, px: nat, py: nat): (p: seq<int>)
    requires Readable(img) && Usable(kp) && px < img.width && py < img.height
    ensures |p| == img.bpp
    ensures forall c :: 0 <= c < img.bpp ==> IsByte(p[c])
    ensures forall c :: 3 <= c < img.bpp ==> p[c] == Channel(img, px, py, c)
  {
    var s := Step(kp);
    Assemble(img, mode, px, py, Gradient(img, kp.kx, s, px, py), Gradient(img, kp.ky, s, px, py))
  }

  /** The output image pixel by pixel; outside the image it is empty. */
  function OutPixels(img: Image, kp: KernelPair, mode: int): Pixels
    requires Readable(img) && Usable(kp)
  {
    (x: nat, y: nat) => if x < img.width && y < img.height then OutPixel(img, kp, mode, x, y) else []
  }

  /** Every output pixel has `bpp` samples. */
  lemma OutPixelsSized(img: Image, kp: KernelPair, mode: int)
    requires Readable(img) && Usable(kp)
    ensures Sized(OutPixels(img, kp, mode), img.width, img.height, img.bpp)
  {
  }

  /** The whole destination buffer: the output pixels in row-major order. Every pixel is
      rewritten, so it depends on the source alone. */
  function Convolve(img: Image, kp: KernelPair, mode: int): (out: seq<int>)
    requires Readable(img) && Usable(kp)
    ensures |out| == |img.data|
  {
    OutPixelsSized(img, kp, mode);
    RowsLength(OutPixels(img, kp, mode), img.width, img.height, img.bpp, img.height);
    Rows(OutPixels(img, kp, mode), img.width, img.height)
  }

  /** Pixel `(px, py)` of the output buffer is `OutPixel(px, py)`. */
  lemma ConvolvePixel(img: Image, kp: KernelPair, mode: int, px: nat, py: nat)
    requires Readable(img) && Usable(kp) && px < img.width && py < img.height
    ensures var o := PixelOffset(img, px, py);
      Convolve(img, kp, mode)[o .. o + img.bpp] == OutPixel(img, kp, mode, px, py)
  {
    var pixels := OutPixels(img, kp, mode);
    assert pixels(px, py) == OutPixel(img, kp, mode, px, py);
    OutPixelsSized(img, kp, mode);
    PixelAt(pixels, img.width, img.height, img.bpp, px, py);
  }

  /** Channel `c` of pixel `(px, py)` of the output buffer is channel `c` of `OutPixel(px, py)`. */
  lemma ConvolveSample(img: Image, kp: KernelPair, mode: int, px: nat, py: nat, c: nat)
    requires Readable(img) && Usable(kp) && px < img.width && py < img.height && c < img.bpp
    ensures PixelOffset(img, px, py) + c < |img.data|
    ensures Convolve(img, kp, mode)[PixelOffset(img, px, py) + c] == OutPixel(img, kp, mode, px, py)[c]
  {
    var o := PixelOffset(img, px, py);
    ConvolvePixel(img, kp, mode, px, py);
    assert Convolve(img, kp, mode)[o + c] == Convolve(img, kp, mode)[o .. o + img.bpp][c];
  }

  /** Sample `i` of the output buffer is its channel of the output pixel it belongs to. */
  lemma ConvolveAt(img: Image, kp: KernelPair, mode: int, i: int)
    requires Readable(img) && Usable(kp) && 0 <= i < |img.data|
    ensures Convolve(img, kp, mode)[i] == OutPixel(img, kp, mode, PixelX(img, i), PixelY(img, i))[ChannelOf(img, i)]
    ensures IsByte(Convolve(img, kp, mode)[i])
    ensures 3 <= ChannelOf(img, i) ==> Convolve(img, kp, mode)[i] == img.data[i]
  {
    var x, y, c := PixelX(img, i), PixelY(img, i), ChannelOf(img, i);
    assert PixelOffset(img, x, y) + c == i by {
      IndexEncodes(img, i);
    }
    ConvolveSample(img, kp, mode, x, y, c);
    if 3 <= c {
      assert OutPixel(img, kp, mode, x, y)[c] == Channel(img, x, y, c);
    }
  }

  /** The destination buffer holds only bytes. */
  lemma ConvolveBytes(img: Image, kp: KernelPair, mode: int)
    requires Readable(img) && Usable(kp)
    ensures forall i :: 0 <= i < |img.data| ==> IsByte(Convolve(img, kp, mode)[i])
  {
    forall i | 0 <= i < |img.data|
      ensures IsByte(Convolve(img, kp, mode)[i])
    {
      ConvolveAt(img, kp, mode, i);
    }
  }

  /** Channels from the fourth on are carried over from the source unchanged. */
  lemma ConvolveKeepsExtraChannels(img: Image, kp: KernelPair, mode: int)
    requires Readable(img) && Usable(kp)
    ensures forall i :: 0 <= i < |img.data| && 3 <= ChannelOf(img, i) ==> Convolve(img, kp, mode)[i] == img.data[i]
  {
    forall i | 0 <= i < |img.data| && 3 <= ChannelOf(img, i)
      ensures Convolve(img, kp, mode)[i] == img.data[i]
    {
      ConvolveAt(img, kp, mode, i);
    }
  }

  /** Output samples of channels 0..2 are the synthesised colour of their own pixel. */
  lemma ColourSample(img: Image, kp: KernelPair, mode: int, i: int)
    requires Readable(img) && Usable(kp) && 0 <= i < |img.data| && ChannelOf(img, i) < 3
    ensures var x, y := PixelX(img, i), PixelY(img, i);
      Convolve(img, kp, mode)[i]
        == Synthesize(mode, Gradient(img, kp.kx, Step(kp), x, y), Gradient(img, kp.ky, Step(kp), x, y))[ChannelOf(img, i)]
  {
    ConvolveAt(img, kp, mode, i);
  }

  /** A constant-colour image: every pixel carries the first three channels of pixel (0, 0). */
  ghost predicate Uniform(img: Image)
    requires Readable(img)
  {
    forall x, y, c :: 0 <= x < img.width && 0 <= y < img.height && 0 <= c < 3 ==>
      Channel(img, x, y, c) == Channel(img, 0, 0, c)
  }

  /** In a constant-colour image every window sample has the grey value of pixel (0, 0). */
  lemma UniformSample(img: Image, step: nat, px: nat, py: nat, x: nat, y: nat)
    requires Readable(img) && Uniform(img) && 1 <= step <= 3 && px < img.width && py < img.height
    requires x < step && y < step
    ensures Sample(img, step, px, py, x, y) == Grey(img, 0, 0)
  {
    var sx := Resolve(px - Half(step) + x, img.width);
    var sy := Resolve(py - Half(step) + y, img.height);
    assert Channel(img, sx, sy, 0) == Channel(img, 0, 0, 0);
    assert Channel(img, sx, sy, 1) == Channel(img, 0, 0, 1);
    assert Channel(img, sx, sy, 2) == Channel(img, 0, 0, 2);
  }

  /** Over a constant-colour image a kernel row sums to the grey value times its weight. */
  lemma {:induction false} UniformKernelRowSum(img: Image, k: Matrix, step: nat, px: nat, py: nat, y: nat, n: nat)
    requires Window(img, k, step, px, py) && Uniform(img) && y < step && n <= step
    ensures KernelRowSum(img, k, step, px, py, y, n) == Grey(img, 0, 0) * RowWeight(k, y, n)
  {
    if n > 0 {
      UniformKernelRowSum(img, k, step, px, py, y, n - 1);
      UniformSample(img, step, px, py, n - 1, y);
      TimesIsProduct(Sample(img, step, px, py, n - 1, y), k[n - 1][y]);
      MulAdd(Grey(img, 0, 0), RowWeight(k, y, n - 1), k[n - 1][y]);
    }
  }

  /** Over a constant-colour image the running sum is the grey value times the weight so far. */
  lemma {:induction false} UniformPartialSum(img: Image, k: Matrix, step: nat, px: nat, py: nat, rows: nat)
    requires Window(img, k, step, px, py) && Uniform(img) && rows <= step
    ensures PartialSum(img, k, step, px, py, rows) == Grey(img, 0, 0) * Weight(k, rows, step)
  {
    if rows > 0 {
      UniformPartialSum(img, k, step, px, py, rows - 1);
      UniformKernelRowSum(img, k, step, px, py, rows - 1, step);
      MulAdd(Grey(img, 0, 0), Weight(k, rows - 1, step), RowWeight(k, rows - 1, step));
    }
  }

  /** Every preset kernel sees no edge in a constant-colour image: both gradients vanish. */
  lemma UniformGradientsVanish(img: Image, name: string, px: nat, py: nat)
    requires Readable(img) && Uniform(img) && name in PresetNames
    requires px < img.width && py < img.height
    ensures LookupKernels(name).Found?
    ensures var kp := LookupKernels(name).pair;
      Gradient(img, kp.kx, Step(kp), px, py) == 0 && Gradient(img, kp.ky, Step(kp), px, py) == 0
  {
    var kp := LookupKernels(name).pair;
    PresetsSumToZero(name);
    UniformPartialSum(img, kp.kx, Step(kp), px, py, Step(kp));
    UniformPartialSum(img, kp.ky, Step(kp), px, py, Step(kp));
  }

  /** Every output pixel of a constant-colour image filtered with a preset is black in
      channels 0..2. */
  lemma UniformPixelIsBlack(img: Image, name: string, mode: int, x: nat, y: nat)
    requires Readable(img) && Uniform(img) && name in PresetNames
    requires x < img.width && y < img.height
    ensures LookupKernels(name).Found?
    ensures forall c :: 0 <= c < 3 ==> OutPixel(img, LookupKernels(name).pair, mode, x, y)[c] == 0
  {
    var kp := LookupKernels(name).pair;
    UniformGradientsVanish(img, name, x, y);
    NoEdgeIsBlack(mode);
  }

  /** A constant-colour image filtered with any preset, in either colour mode, comes out with
      channels 0..2 of every pixel zero. */
  lemma UniformImageIsBlack(img: Image, name: string, mode: int)
    requires Readable(img) && Uniform(img) && name in PresetNames
    ensures LookupKernels(name).Found?
    ensures var out := Convolve(img, LookupKernels(name).pair, mode);
      forall i :: 0 <= i < |out| && ChannelOf(img, i) < 3 ==> out[i] == 0
  {
    var kp := LookupKernels(name).pair;
    var out := Convolve(img, kp, mode);
    forall i | 0 <= i < |out| && ChannelOf(img, i) < 3
      ensures out[i] == 0
    {
      ConvolveAt(img, kp, mode, i);
      UniformPixelIsBlack(img, name, mode, PixelX(img, i), PixelY(img, i));
    }
  }

  /** A window of bytes weighs a kernel row between 255 times its negative and 255 times its
      positive coefficients. */
  lemma {:induction false} KernelRowSumBounds(img: Image, k: Matrix, step: nat, px: nat, py: nat, y: nat, n: nat)
    requires Window(img, k, step, px, py) && y < step && n <= step
    ensures 255 * RowWeight(NegativePart(k), y, n) <= KernelRowSum(img, k, step, px, py, y, n)
    ensures KernelRowSum(img, k, step, px, py, y, n) <= 255 * RowWeight(PositivePart(k), y, n)
  {
    if n > 0 {
      KernelRowSumBounds(img, k, step, px, py, y, n - 1);
      var g := Sample(img, step, px, py, n - 1, y);
      var w := k[n - 1][y];
      var pos, neg := PositivePart(k), NegativePart(k);
      assert pos[n - 1][y] == (if 0 < w then w else 0);
      assert neg[n - 1][y] == (if w < 0 then w else 0);
      MulAdd(255, RowWeight(pos, y, n - 1), pos[n - 1][y]);
      MulAdd(255, RowWeight(neg, y, n - 1), neg[n - 1][y]);
      TimesIsProduct(g, w);
      ByteTimesWeight(g, w);
    }
  }

  /** The running sum lies between 255 times the negative and 255 times the positive weight. */
  lemma {:induction false} PartialSumBounds(img: Image, k: Matrix, step: nat, px: nat, py: nat, rows: nat)
    requires Window(img, k, step, px, py) && rows <= step
    ensures IsSquare(PositivePart(k), step) && IsSquare(NegativePart(k), step)
    ensures 255 * Weight(NegativePart(k), rows, step) <= PartialSum(img, k, step, px, py, rows)
    ensures PartialSum(img, k, step, px, py, rows) <= 255 * Weight(PositivePart(k), rows, step)
  {
    if rows > 0 {
      PartialSumBounds(img, k, step, px, py, rows - 1);
      KernelRowSumBounds(img, k, step, px, py, rows - 1, step);
    }
  }

  /** With a preset kernel both gradients lie in [-4*255, 4*255], so the squared magnitude
      handed to the square root stays below 2*1020*1020, far inside the range where a
      double-precision root truncates to the exact integer floor root. */
  lemma PresetGradientBound(img: Image, name: string, px: nat, py: nat)
    requires Readable(img) && name in PresetNames && px < img.width && py < img.height
    ensures LookupKernels(name).Found?
    ensures var kp := LookupKernels(name).pair;
      var gx := Gradient(img, kp.kx, Step(kp), px, py);
      var gy := Gradient(img, kp.ky, Step(kp), px, py);
      && -1020 <= gx <= 1020 && -1020 <= gy <= 1020
      && gx * gx + gy * gy <= 2 * 1020 * 1020
  {
    var kp := LookupKernels(name).pair;
    var n := Step(kp);
    PresetWeightBounds(name);
    var gx := Gradient(img, kp.kx, n, px, py);
    var gy := Gradient(img, kp.ky, n, px, py);
    SquareBound(gx, 1020);
    SquareBound(gy, 1020);
  }
}
