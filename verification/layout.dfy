/** Row-major layout: an image given pixel by pixel, written out as one flat buffer the way
    nested row and column loops write it, rows top to bottom and pixels left to right. */
module Layout {

  import opened Arith

  /** The contents of every pixel `(x, y)`, as a run of samples. */
  type Pixels = (nat, nat) -> seq<int>

  /** Every pixel of a `width*height` image is `bpp` samples long. */
  ghost predicate Sized(pixel: Pixels, width: nat, height: nat, bpp: nat)
  {
    forall x: nat, y: nat :: x < width && y < height ==> |pixel(x, y)| == bpp
  }

  /** Pixels `(0, y)` up to `(n - 1, y)` of row `y`, laid end to end. */
  function Row(pixel: Pixels, y: nat, n: nat): seq<int>
  {
    if n == 0 then [] else Row(pixel, y, n - 1) + pixel(n - 1, y)
  }

  /** Rows `0` up to `rows - 1`, each `width` pixels, laid end to end. */
  function Rows(pixel: Pixels, width: nat, rows: nat): seq<int>
  {
    if rows == 0 then [] else Rows(pixel, width, rows - 1) + Row(pixel, rows - 1, width)
  }

  /** Everything laid out before pixel `(x, y)`: the rows above and the pixels to its left. */
  function Before(pixel: Pixels, width: nat, x: nat, y: nat): seq<int>
  {
    Rows(pixel, width, y) + Row(pixel, y, x)
  }

  /** Slice assignment `s[o:o+len(p)] = p` of a same-length run: `p` replaces the samples
      at `o`, and everything before and after stays. */
  function Splice(s: seq<int>, o: nat, p: seq<int>): (r: seq<int>)
    requires o + |p| <= |s|
    ensures |r| == |s| && r[o .. o + |p|] == p
    ensures r[.. o] == s[.. o] && r[o + |p| ..] == s[o + |p| ..]
  {
    s[.. o] + p + s[o + |p| ..]
  }

  /** A second slice assignment to the same run overrides the first. */
  lemma SpliceTwice(s: seq<int>, o: nat, p: seq<int>, q: seq<int>)
    requires o + |p| <= |s| && |q| == |p|
    ensures Splice(Splice(s, o, p), o, q) == Splice(s, o, q)
  {
  }

  /** Laying out pixel `(x, y)` extends what was laid out before it by exactly that pixel. */
  lemma BeforeStep(pixel: Pixels, width: nat, x: nat, y: nat)
    ensures Before(pixel, width, x + 1, y) == Before(pixel, width, x, y) + pixel(x, y)
  {
  }

  /** Row `y` begins right after the rows above it. */
  lemma BeforeRowStart(pixel: Pixels, width: nat, y: nat)
    ensures Before(pixel, width, 0, y) == Rows(pixel, width, y)
  {
  }

  /** Row `y` ends right before row `y + 1`. */
  lemma BeforeRowEnd(pixel: Pixels, width: nat, y: nat)
    ensures Before(pixel, width, width, y) == Rows(pixel, width, y + 1)
  {
  }

  /** The first `n` pixels of a row hold `n*bpp` samples. */
  lemma {:induction false} RowLength(pixel: Pixels, width: nat, height: nat, bpp: nat, y: nat, n: nat)
    requires Sized(pixel, width, height, bpp) && y < height && n <= width
    ensures |Row(pixel, y, n)| == n * bpp
  {
    if n > 0 {
      RowLength(pixel, width, height, bpp, y, n - 1);
      assert |pixel(n - 1, y)| == bpp;
      assert n * bpp == (n - 1) * bpp + bpp;
    }
  }

  /** The first `rows` rows hold `width*rows*bpp` samples. */
  lemma {:induction false} RowsLength(pixel: Pixels, width: nat, height: nat, bpp: nat, rows: nat)
    requires Sized(pixel, width, height, bpp) && rows <= height
    ensures |Rows(pixel, width, rows)| == width * rows * bpp
  {
    if rows > 0 {
      RowsLength(pixel, width, height, bpp, rows - 1);
      RowLength(pixel, width, height, bpp, rows - 1, width);
      RowsStep(width, bpp, rows);
    }
  }

  /** Pixel `(x, y)` starts right after `x + width*y` whole pixels. */
  lemma BeforeLength(pixel: Pixels, width: nat, height: nat, bpp: nat, x: nat, y: nat)
    requires Sized(pixel, width, height, bpp) && x <= width && y < height
    ensures |Before(pixel, width, x, y)| == RowMajor(width, bpp, x, y)
  {
    RowsLength(pixel, width, height, bpp, y);
    RowLength(pixel, width, height, bpp, y, x);
  }

  /** A shorter part of a row is a prefix of a longer one. */
  lemma {:induction false} RowPrefix(pixel: Pixels, y: nat, n: nat, m: nat)
    requires n <= m
    ensures Row(pixel, y, n) <= Row(pixel, y, m)
  {
    if n < m {
      RowPrefix(pixel, y, n, m - 1);
    }
  }

  /** Fewer rows are a prefix of more rows. */
  lemma {:induction false} RowsPrefix(pixel: Pixels, width: nat, r: nat, s: nat)
    requires r <= s
    ensures Rows(pixel, width, r) <= Rows(pixel, width, s)
  {
    if r < s {
      RowsPrefix(pixel, width, r, s - 1);
    }
  }

  /** The layout of a whole image starts with everything up to and including pixel `(x, y)`. */
  lemma PixelInRows(pixel: Pixels, width: nat, height: nat, x: nat, y: nat)
    requires x < width && y < height
    ensures Before(pixel, width, x, y) + pixel(x, y) <= Rows(pixel, width, height)
  {
    assert Before(pixel, width, x, y) + pixel(x, y) == Rows(pixel, width, y) + Row(pixel, y, x + 1);
    RowPrefix(pixel, y, x + 1, width);
    RowsPrefix(pixel, width, y + 1, height);
  }

  /** In the layout of a whole image, pixel `(x, y)` sits at its row-major offset. */
  lemma PixelAt(pixel: Pixels, width: nat, height: nat, bpp: nat, x: nat, y: nat)
    requires Sized(pixel, width, height, bpp) && x < width && y < height
    ensures var o := RowMajor(width, bpp, x, y);
      o + bpp <= |Rows(pixel, width, height)| && Rows(pixel, width, height)[o .. o + bpp] == pixel(x, y)
  {
    PixelInRows(pixel, width, height, x, y);
    BeforeLength(pixel, width, height, bpp, x, y);
    PrefixSlice(Before(pixel, width, x, y), pixel(x, y), Rows(pixel, width, height));
  }

  /** Writing pixel `(x, y)` in place at its row-major offset extends a buffer that starts
      with everything laid out before that pixel by the pixel itself. */
  lemma PixelWritten(pixel: Pixels, width: nat, height: nat, bpp: nat, x: nat, y: nat, o: nat,
                     before: seq<int>)
    requires Sized(pixel, width, height, bpp) && x < width && y < height
    requires o == RowMajor(width, bpp, x, y) && o + bpp <= |before|
    requires Before(pixel, width, x, y) <= before
    ensures Before(pixel, width, x + 1, y) <= Splice(before, o, pixel(x, y))
  {
    BeforeLength(pixel, width, height, bpp, x, y);
    ExtendPrefix(Before(pixel, width, x, y), pixel(x, y), before);
    BeforeStep(pixel, width, x, y);
  }

  /** Writing `q` in place right after a prefix `p` extends the prefix. */
  lemma ExtendPrefix(p: seq<int>, q: seq<int>, s: seq<int>)
    requires p <= s && |p| + |q| <= |s|
    ensures p + q <= Splice(s, |p|, q)
  {
    var r := Splice(s, |p|, q);
    assert r[.. |p| + |q|] == r[.. |p|] + r[|p| .. |p| + |q|];
  }
}
