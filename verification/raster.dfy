/** The pixel buffer: a flat row-major sequence of 8-bit samples, `bpp` samples per pixel,
    with pixel `(x, y)` starting at offset `(x + width*y)*bpp`. */
module Raster {

  import opened Arith

  datatype Image = Image(width: nat, height: nat, bpp: nat, data: seq<int>)

  predicate IsByte(v: int)
  {
    0 <= v <= 255
  }

  /** What the host guarantees of a pixel region: its length matches its geometry and every
      sample is an unsigned byte. */
  ghost predicate WellFormed(img: Image)
  {
    && |img.data| == img.width * img.height * img.bpp
    && forall i :: 0 <= i < |img.data| ==> IsByte(img.data[i])
  }

  /** A well-formed buffer whose pixels have the three channels the grey average reads. */
  ghost predicate Readable(img: Image)
  {
    WellFormed(img) && 3 <= img.bpp
  }

  /** `(x + width*y)*bpp`, the first sample of pixel `(x, y)`. */
  function PixelOffset(img: Image, x: nat, y: nat): (o: nat)
    requires WellFormed(img) && x < img.width && y < img.height
    ensures o + img.bpp <= |img.data|
  {
    PixelFits(img.width, img.height, img.bpp, x, y);
    RowMajor(img.width, img.bpp, x, y)
  }

  /** The number `x + width*y` of the pixel that sample `i` belongs to. */
  function PixelNumber(img: Image, i: int): (p: nat)
    requires WellFormed(img) && 0 <= i < |img.data|
    ensures p < img.width * img.height
  {
    SampleInPixel(img.width, img.height, img.bpp, i);
    i / img.bpp
  }

  /** The column of the pixel that sample `i` belongs to. */
  function PixelX(img: Image, i: int): (x: nat)
    requires WellFormed(img) && 0 <= i < |img.data|
    ensures x < img.width
  {
    var p := PixelNumber(img, i);
    PixelInRow(img.width, img.height, p);
    p % img.width
  }

  /** The row of the pixel that sample `i` belongs to. */
  function PixelY(img: Image, i: int): (y: nat)
    requires WellFormed(img) && 0 <= i < |img.data|
    ensures y < img.height
  {
    var p := PixelNumber(img, i);
    PixelInRow(img.width, img.height, p);
    p / img.width
  }

  /** The channel that sample `i` holds. */
  function ChannelOf(img: Image, i: int): (c: nat)
    requires WellFormed(img) && 0 <= i < |img.data|
    ensures c < img.bpp
  {
    SampleInPixel(img.width, img.height, img.bpp, i);
    i % img.bpp
  }

  /** Addressing channel `c` of pixel `(x, y)` and decoding the offset gives back `(x, y, c)`. */
  lemma OffsetDecodes(img: Image, x: nat, y: nat, c: nat)
    requires WellFormed(img) && x < img.width && y < img.height && c < img.bpp
    ensures PixelOffset(img, x, y) + c < |img.data|
    ensures PixelX(img, PixelOffset(img, x, y) + c) == x
    ensures PixelY(img, PixelOffset(img, x, y) + c) == y
    ensures ChannelOf(img, PixelOffset(img, x, y) + c) == c
  {
    PixelIndex(img.width, img.height, img.bpp, x, y, c);
  }

  /** Decoding a sample offset and addressing the result again gives back the offset, so
      every sample belongs to exactly one pixel and channel. */
  lemma IndexEncodes(img: Image, i: int)
    requires WellFormed(img) && 0 <= i < |img.data|
    ensures PixelOffset(img, PixelX(img, i), PixelY(img, i)) + ChannelOf(img, i) == i
  {
    IndexSplit(img.width, img.height, img.bpp, i);
  }

  /** Channel `c` of pixel `(x, y)`. */
  function Channel(img: Image, x: nat, y: nat, c: nat): (v: int)
    requires WellFormed(img) && x < img.width && y < img.height && c < img.bpp
    ensures IsByte(v)
  {
    img.data[PixelOffset(img, x, y) + c]
  }

  /** Grey value of a pixel: the truncating average of its first three channels. */
  function Grey(img: Image, x: nat, y: nat): (g: int)
    requires Readable(img) && x < img.width && y < img.height
    ensures 0 <= g <= 255
    ensures 3 * g <= Channel(img, x, y, 0) + Channel(img, x, y, 1) + Channel(img, x, y, 2) < 3 * g + 3
  {
    var o := PixelOffset(img, x, y);
    (img.data[o] + img.data[o + 1] + img.data[o + 2]) / 3
  }

  /** Boundary policy: a coordinate outside `[0, dim)` is replaced by `dim - abs(i)`. For a
      one-cell overshoot this wraps around: `-1` reads `dim - 1` and `dim` reads `0`. */
  function Resolve(i: int, dim: int): (r: int)
    ensures 1 <= dim && -1 <= i <= dim ==> 0 <= r < dim
    ensures 0 <= i < dim ==> r == i
    ensures i == -1 ==> r == dim - 1
    ensures 0 <= dim && i == dim ==> r == 0
  {
    if i < 0 || i >= dim then dim - Abs(i) else i
  }
}
