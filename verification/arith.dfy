/** Integer and sequence facts behind the flat pixel-buffer addressing
    `(x + width*y)*bpp + c`. */
module Arith {

  /** Python's `abs` on integers. */
  function Abs(i: int): (r: nat)
    ensures r == i || r == -i
  {
    if i < 0 then -i else i
  }

  /** Multiplication by a non-negative factor is monotone. */
  lemma MulMonotone(a: int, b: int, k: int)
    requires a <= b && 0 <= k
    ensures a * k <= b * k
  {
    var d := b - a;
    assert b * k == a * k + d * k;
  }

  /** Multiplication distributes over addition. */
  lemma MulAdd(g: int, a: int, b: int)
    ensures g * (a + b) == g * a + g * b
  {
  }

  /** A byte `g` times a weight `w` lies between 255 times the negative part of `w` and 255
      times its positive part. */
  lemma ByteTimesWeight(g: int, w: int)
    requires 0 <= g <= 255
    ensures 255 * (if w < 0 then w else 0) <= g * w <= 255 * (if 0 < w then w else 0)
  {
    if 0 <= w {
      MulMonotone(0, g, w);
      MulMonotone(g, 255, w);
    } else {
      MulMonotone(0, g, -w);
      MulMonotone(g, 255, -w);
    }
  }

  /** A value within `[-m, m]` has a square of at most `m * m`. */
  lemma SquareBound(v: int, m: int)
    requires -m <= v <= m
    ensures v * v <= m * m
  {
    var a := Abs(v);
    assert v * v == a * a;
    MulMonotone(a, m, a);
    MulMonotone(a, m, m);
  }

  /** `a * b` on naturals, by repeated addition. The weighted sums are written with `Times`
      so that the solver treats the product of a grey value and a coefficient as a plain
      symbol; `TimesIsProduct` ties it to `*`. */
  function Mul(a: nat, b: nat): nat
  {
    if b == 0 then 0 else Mul(a, b - 1) + a
  }

  /** `g * w` for a natural `g` and an integer `w`, through `Mul`. */
  function Times(g: nat, w: int): int
  {
    if w < 0 then -(Mul(g, -w) as int) else Mul(g, w)
  }

  lemma {:induction false} MulIsProduct(a: nat, b: nat)
    ensures Mul(a, b) == a * b
  {
    if b > 0 {
      MulIsProduct(a, b - 1);
      assert a * b == a * (b - 1) + a;
    }
  }

  lemma TimesIsProduct(g: nat, w: int)
    ensures Times(g, w) == g * w
  {
    if w < 0 {
      MulIsProduct(g, -w);
    } else {
      MulIsProduct(g, w);
    }
  }

  /** Euclidean division is determined by quotient and remainder bounds. */
  lemma DivModUnique(n: int, b: int, q: int, r: int)
    requires 0 < b && 0 <= r < b && n == q * b + r
    ensures n / b == q && n % b == r
  {
    var q', r' := n / b, n % b;
    assert n == q' * b + r';
    if q' < q {
      assert (q' + 1) * b == q' * b + b;
      MulMonotone(q' + 1, q, b);
      assert false;
    } else if q < q' {
      assert (q + 1) * b == q * b + b;
      MulMonotone(q + 1, q', b);
      assert false;
    }
  }

  /** `(x + w*y)*bpp`: where pixel `(x, y)` starts in a row-major buffer of `w` pixels per
      row and `bpp` samples per pixel. */
  function RowMajor(w: nat, bpp: nat, x: nat, y: nat): nat
  {
    (x + w * y) * bpp
  }

  /** Pixel `(x, y)` of a `w*h` image ends within the `w*h*bpp` buffer. */
  lemma PixelFits(w: nat, h: nat, bpp: nat, x: nat, y: nat)
    requires x < w && y < h
    ensures (x + w * y) * bpp + bpp <= w * h * bpp
  {
    var p := x + w * y;
    assert p + 1 <= w * h by {
      assert w * (y + 1) == w * y + w;
      MulMonotone(y + 1, h, w);
    }
    MulMonotone(p + 1, w * h, bpp);
    assert (p + 1) * bpp == p * bpp + bpp;
  }

  /** `r` rows of `w` pixels are `r - 1` such rows and one more. */
  lemma RowsStep(w: nat, bpp: nat, r: nat)
    requires 0 < r
    ensures w * r * bpp == w * (r - 1) * bpp + w * bpp
  {
    var a := w * (r - 1);
    assert w * r == a + w;
    assert (a + w) * bpp == a * bpp + w * bpp;
  }

  /** A prefix `p + q` of `s` places `q` right after `p`. */
  lemma PrefixSlice(p: seq<int>, q: seq<int>, s: seq<int>)
    requires p + q <= s
    ensures |p| + |q| <= |s| && s[|p| .. |p| + |q|] == q
  {
    assert s[|p| .. |p| + |q|] == (p + q)[|p| ..];
  }

  /** Where channel `c` of pixel `(x, y)` lies in a buffer of `w*h` pixels of `bpp` samples,
      and how that offset decomposes back into pixel and channel. */
  lemma PixelIndex(w: nat, h: nat, bpp: nat, x: nat, y: nat, c: nat)
    requires x < w && y < h && c < bpp
    ensures (x + w * y) * bpp + c < w * h * bpp
    ensures ((x + w * y) * bpp + c) / bpp == x + w * y
    ensures ((x + w * y) * bpp + c) % bpp == c
    ensures (x + w * y) % w == x && (x + w * y) / w == y
  {
    var p := x + w * y;
    DivModUnique(p * bpp + c, bpp, p, c);
    DivModUnique(p, w, y, x);
    PixelFits(w, h, bpp, x, y);
  }

  /** Sample `i` of a `w*h*bpp` buffer belongs to pixel number `i / bpp`, one of the `w*h`. */
  lemma SampleInPixel(w: nat, h: nat, bpp: nat, i: int)
    requires 0 <= i < w * h * bpp
    ensures 0 < bpp && i / bpp < w * h
  {
    var p := i / bpp;
    assert i == p * bpp + i % bpp;
    if w * h <= p {
      MulMonotone(w * h, p, bpp);
      assert false;
    }
  }

  /** Pixel number `p` of a `w*h` image lies in column `p % w` of row `p / w`. */
  lemma PixelInRow(w: nat, h: nat, p: int)
    requires 0 <= p < w * h
    ensures 0 < w && p % w < w && p / w < h
  {
    var y := p / w;
    assert p == y * w + p % w;
    if h <= y {
      MulMonotone(h, y, w);
      assert false;
    }
  }

  /** Every offset of a `w*h*bpp` buffer is channel `i % bpp` of an in-range pixel. */
  lemma IndexSplit(w: nat, h: nat, bpp: nat, i: int)
    requires 0 <= i < w * h * bpp
    ensures 0 < bpp && 0 < w
    ensures i == ((i / bpp) % w + w * ((i / bpp) / w)) * bpp + i % bpp
  {
    SampleInPixel(w, h, bpp, i);
    PixelInRow(w, h, i / bpp);
  }
}
