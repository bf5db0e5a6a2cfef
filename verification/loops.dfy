/** The convolution as the nested loops run it: rows, then columns, then kernel rows, then
    kernel columns, with the centre pixel rewritten into the destination after every kernel
    row. Each method is proved to compute what the functions of `Engine` describe. */
module Loops {

  import opened Arith
  import opened Color
  import opened Kernels
  import opened Raster
  import opened Layout
  import opened Engine
  import opened Progress

  /** One pass of the kernel-column loop: adds the weighted grey values of kernel row `y`
      to the running sums. */
  method AccumulateKernelRow(img: Image, kp: KernelPair, px: nat, py: nat, y: nat, sumX0: int, sumY0: int)
    returns (sumX: int, sumY: int)
    requires Readable(img) && Usable(kp) && px < img.width && py < img.height && y < Step(kp)
    ensures sumX == sumX0 + KernelRowSum(img, kp.kx, Step(kp), px, py, y, Step(kp))
    ensures sumY == sumY0 + KernelRowSum(img, kp.ky, Step(kp), px, py, y, Step(kp))
  {
    var step := Step(kp);
    sumX, sumY := sumX0, sumY0;
    var x := 0;
    while x < step
      invariant 0 <= x <= step
      invariant sumX == sumX0 + KernelRowSum(img, kp.kx, step, px, py, y, x)
      invariant sumY == sumY0 + KernelRowSum(img, kp.ky, step, px, py, y, x)
    {
      var grey := ReadSample(img, step, px, py, x, y);
      KernelRowSumStep(img, kp.kx, step, px, py, y, x, grey);
      KernelRowSumStep(img, kp.ky, step, px, py, y, x, grey);
      sumX := sumX + grey * kp.kx[x][y];
      sumY := sumY + grey * kp.ky[x][y];
      x := x + 1;
    }
  }

  /** The read of window cell `(x, y)` around centre `(px, py)`: each coordinate outside the
      image is replaced by `dim - abs(i)`, then the first three channels of the selected
      pixel are averaged. */
  method ReadSample(img: Image, step: nat, px: nat, py: nat, x: nat, y: nat) returns (grey: int)
    requires Readable(img) && 1 <= step <= 3 && px < img.width && py < img.height
    requires x < step && y < step
    ensures grey == Sample(img, step, px, py, x, y)
  {
    var half := Half(step);
    var selectedX := px - half + x;
    var selectedY := py - half + y;
    if selectedX < 0 || selectedX >= img.width {
      selectedX := img.width - Abs(selectedX);
    }
    if selectedY < 0 || selectedY >= img.height {
      selectedY := img.height - Abs(selectedY);
    }
    assert selectedX == Resolve(px - half + x, img.width);
    assert selectedY == Resolve(py - half + y, img.height);
    var pos := PixelOffset(img, selectedX, selectedY);
    grey := (img.data[pos] + img.data[pos + 1] + img.data[pos + 2]) / 3;
  }

  /** The kernel-row loop for centre `(px, py)`: after each kernel row the centre pixel is
      recoloured from the sums so far and copied into the destination, so the last copy,
      made with the complete sums, is the one that remains. Nothing outside the pixel moves. */
  method FilterPixel(img: Image, kp: KernelPair, mode: int, px: nat, py: nat, dst0: seq<int>)
    returns (dst: seq<int>)
    requires Readable(img) && Usable(kp) && px < img.width && py < img.height
    requires |dst0| == |img.data|
    ensures dst == Splice(dst0, PixelOffset(img, px, py), OutPixel(img, kp, mode, px, py))
  {
    var step := Step(kp);
    var o := PixelOffset(img, px, py);
    var centerPixel := img.data[o .. o + img.bpp];
    var sumX, sumY := 0, 0;
    dst := dst0;
    var y := 0;
    while y < step
      invariant 0 <= y <= step
      invariant sumX == PartialSum(img, kp.kx, step, px, py, y)
      invariant sumY == PartialSum(img, kp.ky, step, px, py, y)
      invariant |centerPixel| == img.bpp && centerPixel[3..] == img.data[o + 3 .. o + img.bpp]
      invariant y == 0 ==> dst == dst0
      invariant 0 < y ==> dst == Splice(dst0, o, Synthesize(mode, sumX, sumY) + img.data[o + 3 .. o + img.bpp])
    {
      sumX, sumY, centerPixel, dst := KernelRowPass(img, kp, mode, px, py, y, dst0, sumX, sumY, centerPixel, dst);
      y := y + 1;
    }
    assert OutPixel(img, kp, mode, px, py) == Synthesize(mode, sumX, sumY) + img.data[o + 3 .. o + img.bpp];
  }

  /** One pass of the kernel-row loop: kernel row `y` is added to both sums, channels 0..2 of
      the centre-pixel copy are recoloured from the sums so far, and the copy is written over
      the pixel in the destination, replacing the previous pass's copy. */
  method KernelRowPass(img: Image, kp: KernelPair, mode: int, px: nat, py: nat, y: nat, dst0: seq<int>,
                       sumX0: int, sumY0: int, centerPixel0: seq<int>, dstIn: seq<int>)
    returns (sumX: int, sumY: int, centerPixel: seq<int>, dst: seq<int>)
    requires Readable(img) && Usable(kp) && px < img.width && py < img.height && y < Step(kp)
    requires |dst0| == |img.data|
    requires sumX0 == PartialSum(img, kp.kx, Step(kp), px, py, y)
    requires sumY0 == PartialSum(img, kp.ky, Step(kp), px, py, y)
    requires var o := PixelOffset(img, px, py);
      |centerPixel0| == img.bpp && centerPixel0[3..] == img.data[o + 3 .. o + img.bpp]
    requires y == 0 ==> dstIn == dst0
    requires var o := PixelOffset(img, px, py);
      0 < y ==> dstIn == Splice(dst0, o, Synthesize(mode, sumX0, sumY0) + img.data[o + 3 .. o + img.bpp])
    ensures sumX == PartialSum(img, kp.kx, Step(kp), px, py, y + 1)
    ensures sumY == PartialSum(img, kp.ky, Step(kp), px, py, y + 1)
    ensures var o := PixelOffset(img, px, py);
      |centerPixel| == img.bpp && centerPixel[3..] == img.data[o + 3 .. o + img.bpp]
    ensures var o := PixelOffset(img, px, py);
      dst == Splice(dst0, o, Synthesize(mode, sumX, sumY) + img.data[o + 3 .. o + img.bpp])
  {
    var o := PixelOffset(img, px, py);
    sumX, sumY := AccumulateKernelRow(img, kp, px, py, y, sumX0, sumY0);
    centerPixel := Recolour(centerPixel0, mode, sumX, sumY);
    if 0 < y {
      SpliceTwice(dst0, o, dstIn[o .. o + img.bpp], centerPixel);
    }
    dst := Splice(dstIn, o, centerPixel);
  }

  /** The colour-mode block: channels 0..2 of the centre pixel are overwritten from the
      sums, the remaining channels are kept. */
  method Recolour(centerPixel: seq<int>, mode: int, sumX: int, sumY: int) returns (p: seq<int>)
    requires 3 <= |centerPixel|
    ensures p == Synthesize(mode, sumX, sumY) + centerPixel[3..]
  {
    if mode == RedBlueMode {
      p := centerPixel[0 := Clamp(sumX)][1 := Clamp(sumY / 2)][2 := Clamp(sumY)];
    } else {
      var m := Clamp(Isqrt(sumX * sumX + sumY * sumY));
      p := centerPixel[0 := m][1 := m][2 := m];
    }
    assert p[..3] == Synthesize(mode, sumX, sumY);
    assert p == p[..3] + p[3..];
  }

  /** The pixel loops of `convolute`: every pixel of the destination is produced from the
      source, row by row, with a progress report after each row and a final report of 1.
      Whatever the destination held before, the result is the functional filter output. */
  method ConvoluteLoops(img: Image, kp: KernelPair, mode: int, dst0: seq<int>)
    returns (dst: seq<int>, reports: seq<Fraction>)
    requires Readable(img) && Usable(kp) && |dst0| == |img.data|
    ensures dst == Convolve(img, kp, mode)
    ensures reports == Reports(img.height)
  {
    dst := dst0;
    reports := [Fraction(0, 1)];
    var posY := 0;
    while posY < img.height
      invariant 0 <= posY <= img.height
      invariant |dst| == |img.data|
      invariant Rows(OutPixels(img, kp, mode), img.width, posY) <= dst
      invariant reports == Progressed(posY, img.height)
    {
      dst := FilterRow(img, kp, mode, posY, dst);
      reports := reports + [RowDone(posY, img.height)];
      posY := posY + 1;
    }
    ProgressedComplete(img.height);
    reports := reports + [Fraction(1, 1)];
  }

  /** The column loop over row `posY`: given a destination that starts with the finished
      rows above, it finishes row `posY` as well. */
  method FilterRow(img: Image, kp: KernelPair, mode: int, posY: nat, dst0: seq<int>)
    returns (dst: seq<int>)
    requires Readable(img) && Usable(kp) && posY < img.height && |dst0| == |img.data|
    requires Rows(OutPixels(img, kp, mode), img.width, posY) <= dst0
    ensures |dst| == |img.data|
    ensures Rows(OutPixels(img, kp, mode), img.width, posY + 1) <= dst
  {
    dst := dst0;
    var posX := 0;
    ghost var pixels := OutPixels(img, kp, mode);
    BeforeRowStart(pixels, img.width, posY);
    while posX < img.width
      invariant 0 <= posX <= img.width
      invariant |dst| == |img.data|
      invariant Before(pixels, img.width, posX, posY) <= dst
    {
      ghost var before := dst;
      dst := FilterPixel(img, kp, mode, posX, posY, dst);
      PixelFinished(img, kp, mode, posX, posY, before, dst);
      posX := posX + 1;
    }
    BeforeRowEnd(pixels, img.width, posY);
  }

  /** Once pixel `(posX, posY)` is written, the destination starts with everything up to and
      including that pixel. */
  lemma PixelFinished(img: Image, kp: KernelPair, mode: int, posX: nat, posY: nat,
                      before: seq<int>, after: seq<int>)
    requires Readable(img) && Usable(kp) && posX < img.width && posY < img.height
    requires |before| == |img.data|
    requires Before(OutPixels(img, kp, mode), img.width, posX, posY) <= before
    requires after == Splice(before, PixelOffset(img, posX, posY), OutPixel(img, kp, mode, posX, posY))
    ensures Before(OutPixels(img, kp, mode), img.width, posX + 1, posY) <= after
  {
    var pixels := OutPixels(img, kp, mode);
    assert pixels(posX, posY) == OutPixel(img, kp, mode, posX, posY);
    OutPixelsSized(img, kp, mode);
    PixelWritten(pixels, img.width, img.height, img.bpp, posX, posY, PixelOffset(img, posX, posY), before);
  }
}
