/** Which way each kernel table looks. The filter weighs the sample at horizontal offset `x`
    and vertical offset `y` of the window with `k[x][y]`. Read that way, every list `k[x]` of
    the Sobel and Prewitt entries of `kernels_x` sums to zero, so the sum they drive (`sumX`)
    is blind to change along x and measures the row above the pixel against the row below it;
    `kernels_y` is the reverse. */
module Orientation {
  import opened Arith
  import opened Kernels
  import opened Raster
  import opened Engine

  /** Grey values change only from column to column: every column is constant. */
  ghost predicate ColumnsConstant(img: Image)
    requires Readable(img)
  {
    forall x, y :: 0 <= x < img.width && 0 <= y < img.height ==> Grey(img, x, y) == Grey(img, x, 0)
  }

  /** Grey values change only from row to row: every row is constant. */
  ghost predicate RowsConstant(img: Image)
    requires Readable(img)
  {
    forall x, y :: 0 <= x < img.width && 0 <= y < img.height ==> Grey(img, x, y) == Grey(img, 0, y)
  }

  /** Sum of `k[x][y]` over `y < rows`: the coefficients applied at horizontal offset `x`. */
  function OffsetWeight(k: Matrix, x: nat, rows: nat): int
    requires x < |k| && rows <= |k[x]|
  {
    if rows == 0 then 0 else OffsetWeight(k, x, rows - 1) + k[x][rows - 1]
  }

  /** On an image with constant columns, a window read depends on its horizontal offset only. */
  lemma ColumnSample(img: Image, step: nat, px: nat, py: nat, x: nat, y: nat)
    requires Readable(img) && ColumnsConstant(img) && 1 <= step <= 3 && px < img.width && py < img.height
    requires x < step && y < step
    ensures Sample(img, step, px, py, x, y) == Sample(img, step, px, py, x, 0)
  {
    var sx := Resolve(px - Half(step) + x, img.width);
    var sy := Resolve(py - Half(step) + y, img.height);
    var s0 := Resolve(py - Half(step), img.height);
    assert Grey(img, sx, sy) == Grey(img, sx, 0) == Grey(img, sx, s0);
  }

  /** On an image with constant rows, a window read depends on its vertical offset only. */
  lemma RowSample(img: Image, step: nat, px: nat, py: nat, x: nat, y: nat)
    requires Readable(img) && RowsConstant(img) && 1 <= step <= 3 && px < img.width && py < img.height
    requires x < step && y < step
    ensures Sample(img, step, px, py, x, y) == Sample(img, step, px, py, 0, y)
  {
    var sx := Resolve(px - Half(step) + x, img.width);
    var sy := Resolve(py - Half(step) + y, img.height);
    var s0 := Resolve(px - Half(step), img.width);
    assert Grey(img, sx, sy) == Grey(img, 0, sy) == Grey(img, s0, sy);
  }

  /** The window sum regrouped by vertical offset: the read of each window row times the
      weight of that kernel row, over the first `rows` kernel rows. */
  function Rowwise(img: Image, k: Matrix, step: nat, px: nat, py: nat, rows: nat): int
    requires Window(img, k, step, px, py) && rows <= step
  {
    if rows == 0 then 0
    else Rowwise(img, k, step, px, py, rows - 1) + Sample(img, step, px, py, 0, rows - 1) * RowWeight(k, rows - 1, step)
  }

  /** The window sum after `rows` kernel rows regrouped by horizontal offset: the read of each
      of the first `n` window columns times the weight the visited rows give that column. */
  function Columnwise(img: Image, k: Matrix, step: nat, px: nat, py: nat, rows: nat, n: nat): int
    requires Window(img, k, step, px, py) && rows <= step && n <= step
  {
    if n == 0 then 0
    else Columnwise(img, k, step, px, py, rows, n - 1) + Sample(img, step, px, py, n - 1, 0) * OffsetWeight(k, n - 1, rows)
  }

  /** With constant rows, a kernel row reads one grey value and sums to it times the row's weight. */
  lemma {:induction false} RowsConstantKernelRowSum(img: Image, k: Matrix, step: nat, px: nat, py: nat, y: nat, n: nat)
    requires Window(img, k, step, px, py) && RowsConstant(img) && y < step && n <= step
    ensures KernelRowSum(img, k, step, px, py, y, n) == Sample(img, step, px, py, 0, y) * RowWeight(k, y, n)
  {
    if n > 0 {
      RowsConstantKernelRowSum(img, k, step, px, py, y, n - 1);
      RowSample(img, step, px, py, n - 1, y);
      KernelRowSumStep(img, k, step, px, py, y, n - 1, Sample(img, step, px, py, n - 1, y));
      MulAdd(Sample(img, step, px, py, 0, y), RowWeight(k, y, n - 1), k[n - 1][y]);
    }
  }

  /** With constant rows, the running sum is the regrouped sum `Rowwise`. */
  lemma {:induction false} RowsConstantPartialSum(img: Image, k: Matrix, step: nat, px: nat, py: nat, rows: nat)
    requires Window(img, k, step, px, py) && RowsConstant(img) && rows <= step
    ensures PartialSum(img, k, step, px, py, rows) == Rowwise(img, k, step, px, py, rows)
  {
    if rows > 0 {
      RowsConstantPartialSum(img, k, step, px, py, rows - 1);
      RowsConstantKernelRowSum(img, k, step, px, py, rows - 1, step);
    }
  }

  /** With constant columns, one more kernel row moves each column's weight on by that row's
      coefficient, read at the column's grey value. */
  lemma {:induction false} ColumnsConstantKernelRowSum(img: Image, k: Matrix, step: nat, px: nat, py: nat, y: nat, n: nat)
    requires Window(img, k, step, px, py) && ColumnsConstant(img) && y < step && n <= step
    ensures Columnwise(img, k, step, px, py, y, n) + KernelRowSum(img, k, step, px, py, y, n)
         == Columnwise(img, k, step, px, py, y + 1, n)
  {
    if n > 0 {
      var g := Sample(img, step, px, py, n - 1, 0);
      ColumnsConstantKernelRowSum(img, k, step, px, py, y, n - 1);
      ColumnSample(img, step, px, py, n - 1, y);
      KernelRowSumStep(img, k, step, px, py, y, n - 1, g);
      assert OffsetWeight(k, n - 1, y + 1) == OffsetWeight(k, n - 1, y) + k[n - 1][y];
      MulAdd(g, OffsetWeight(k, n - 1, y), k[n - 1][y]);
      assert Columnwise(img, k, step, px, py, y + 1, n)
          == Columnwise(img, k, step, px, py, y + 1, n - 1) + g * OffsetWeight(k, n - 1, y + 1);
    }
  }

  /** With constant columns, the running sum is the regrouped sum `Columnwise`. */
  lemma {:induction false} ColumnsConstantPartialSum(img: Image, k: Matrix, step: nat, px: nat, py: nat, rows: nat)
    requires Window(img, k, step, px, py) && ColumnsConstant(img) && rows <= step
    ensures PartialSum(img, k, step, px, py, rows) == Columnwise(img, k, step, px, py, rows, step)
  {
    if rows == 0 {
      ZeroColumnwise(img, k, step, px, py, step);
    } else {
      ColumnsConstantPartialSum(img, k, step, px, py, rows - 1);
      ColumnsConstantKernelRowSum(img, k, step, px, py, rows - 1, step);
    }
  }

  /** Before any kernel row every column weighs nothing. */
  lemma {:induction false} ZeroColumnwise(img: Image, k: Matrix, step: nat, px: nat, py: nat, n: nat)
    requires Window(img, k, step, px, py) && n <= step
    ensures Columnwise(img, k, step, px, py, 0, n) == 0
  {
    if n > 0 {
      ZeroColumnwise(img, k, step, px, py, n - 1);
    }
  }

  /** Grey value of the row above the pixel (or the wrapped-around last row). */
  ghost function GreyAbove(img: Image, py: nat): int
    requires Readable(img) && 0 < img.width && py < img.height
  {
    Grey(img, 0, Resolve(py - 1, img.height))
  }

  /** Grey value of the row below the pixel (or the wrapped-around first row). */
  ghost function GreyBelow(img: Image, py: nat): int
    requires Readable(img) && 0 < img.width && py < img.height
  {
    Grey(img, 0, Resolve(py + 1, img.height))
  }

  /** Grey value of the column left of the pixel (or the wrapped-around last column). */
  ghost function GreyLeft(img: Image, px: nat): int
    requires Readable(img) && px < img.width && 0 < img.height
  {
    Grey(img, Resolve(px - 1, img.width), 0)
  }

  /** Grey value of the column right of the pixel (or the wrapped-around first column). */
  ghost function GreyRight(img: Image, px: nat): int
    requires Readable(img) && px < img.width && 0 < img.height
  {
    Grey(img, Resolve(px + 1, img.width), 0)
  }

  /** The weights the presets' 3-square kernels give each window row and each window column. */
  lemma PresetWeights(name: string)
    requires name == "Sobel" || name == "Prewitt"
    ensures IsSquare(KernelsX[name], 3) && IsSquare(KernelsY[name], 3)
    ensures forall x :: 0 <= x < 3 ==> OffsetWeight(KernelsX[name], x, 3) == 0
    ensures forall y :: 0 <= y < 3 ==> RowWeight(KernelsY[name], y, 3) == 0
    ensures var c := if name == "Sobel" then 4 else -3;
      && RowWeight(KernelsX[name], 0, 3) == c && RowWeight(KernelsX[name], 1, 3) == 0
      && RowWeight(KernelsX[name], 2, 3) == -c
      && OffsetWeight(KernelsY[name], 0, 3) == c && OffsetWeight(KernelsY[name], 1, 3) == 0
      && OffsetWeight(KernelsY[name], 2, 3) == -c
  {
  }

  /** Three reads weighed `c`, 0 and `-c` give `c` times the first minus the last. */
  lemma WeighedDifference(a: int, m: int, b: int, c: int)
    ensures a * c + m * 0 + b * -c == c * (a - b)
  {
  }

  /** The regrouped sum of a 3-square kernel, written out row by row. */
  lemma Rowwise3(img: Image, k: Matrix, px: nat, py: nat)
    requires Window(img, k, 3, px, py)
    ensures Rowwise(img, k, 3, px, py, 3)
      == Sample(img, 3, px, py, 0, 0) * RowWeight(k, 0, 3) + Sample(img, 3, px, py, 0, 1) * RowWeight(k, 1, 3)
         + Sample(img, 3, px, py, 0, 2) * RowWeight(k, 2, 3)
  {
    assert Rowwise(img, k, 3, px, py, 1) == Sample(img, 3, px, py, 0, 0) * RowWeight(k, 0, 3);
    assert Rowwise(img, k, 3, px, py, 2) == Rowwise(img, k, 3, px, py, 1) + Sample(img, 3, px, py, 0, 1) * RowWeight(k, 1, 3);
    assert Rowwise(img, k, 3, px, py, 3) == Rowwise(img, k, 3, px, py, 2) + Sample(img, 3, px, py, 0, 2) * RowWeight(k, 2, 3);
  }

  /** The regrouped sum of a 3-square kernel, written out column by column. */
  lemma Columnwise3(img: Image, k: Matrix, px: nat, py: nat)
    requires Window(img, k, 3, px, py)
    ensures Columnwise(img, k, 3, px, py, 3, 3)
      == Sample(img, 3, px, py, 0, 0) * OffsetWeight(k, 0, 3) + Sample(img, 3, px, py, 1, 0) * OffsetWeight(k, 1, 3)
         + Sample(img, 3, px, py, 2, 0) * OffsetWeight(k, 2, 3)
  {
    assert Columnwise(img, k, 3, px, py, 3, 1) == Sample(img, 3, px, py, 0, 0) * OffsetWeight(k, 0, 3);
    assert Columnwise(img, k, 3, px, py, 3, 2) == Columnwise(img, k, 3, px, py, 3, 1) + Sample(img, 3, px, py, 1, 0) * OffsetWeight(k, 1, 3);
    assert Columnwise(img, k, 3, px, py, 3, 3) == Columnwise(img, k, 3, px, py, 3, 2) + Sample(img, 3, px, py, 2, 0) * OffsetWeight(k, 2, 3);
  }

  /** A 3-square kernel whose window rows weigh `c`, 0 and `-c` measures the row above against
      the row below on an image with constant rows. */
  lemma RowsDifference(img: Image, k: Matrix, px: nat, py: nat, c: int)
    requires Window(img, k, 3, px, py) && RowsConstant(img)
    requires RowWeight(k, 0, 3) == c && RowWeight(k, 1, 3) == 0 && RowWeight(k, 2, 3) == -c
    ensures Gradient(img, k, 3, px, py) == c * (GreyAbove(img, py) - GreyBelow(img, py))
  {
    RowsConstantPartialSum(img, k, 3, px, py, 3);
    Rowwise3(img, k, px, py);
    AboveBelow(img, px, py);
    WeighedDifference(GreyAbove(img, py), Sample(img, 3, px, py, 0, 1), GreyBelow(img, py), c);
  }

  /** A 3-square kernel whose window columns weigh `c`, 0 and `-c` measures the column left of
      the pixel against the column right of it on an image with constant columns. */
  lemma ColumnsDifference(img: Image, k: Matrix, px: nat, py: nat, c: int)
    requires Window(img, k, 3, px, py) && ColumnsConstant(img)
    requires OffsetWeight(k, 0, 3) == c && OffsetWeight(k, 1, 3) == 0 && OffsetWeight(k, 2, 3) == -c
    ensures Gradient(img, k, 3, px, py) == c * (GreyLeft(img, px) - GreyRight(img, px))
  {
    ColumnsConstantPartialSum(img, k, 3, px, py, 3);
    Columnwise3(img, k, px, py);
    LeftRight(img, px, py);
    WeighedDifference(GreyLeft(img, px), Sample(img, 3, px, py, 1, 0), GreyRight(img, px), c);
  }

  /** The `kernels_x` entries of Sobel and Prewitt do not see change along x: on an image whose
      grey values change only from column to column, `sumX` is 0 at every pixel. */
  lemma KernelsXBlindAlongX(img: Image, name: string, px: nat, py: nat)
    requires Readable(img) && ColumnsConstant(img) && (name == "Sobel" || name == "Prewitt")
    requires px < img.width && py < img.height
    ensures Gradient(img, KernelsX[name], 3, px, py) == 0
  {
    PresetWeights(name);
    ColumnsDifference(img, KernelsX[name], px, py, 0);
  }

  /** The `kernels_y` entries of Sobel and Prewitt do not see change along y: on an image whose
      grey values change only from row to row, `sumY` is 0 at every pixel. */
  lemma KernelsYBlindAlongY(img: Image, name: string, px: nat, py: nat)
    requires Readable(img) && RowsConstant(img) && (name == "Sobel" || name == "Prewitt")
    requires px < img.width && py < img.height
    ensures Gradient(img, KernelsY[name], 3, px, py) == 0
  {
    PresetWeights(name);
    RowsDifference(img, KernelsY[name], px, py, 0);
  }

  /** Along y the `kernels_x` entries measure the row above the pixel against the row below:
      on an image whose grey values change only from row to row, Sobel gives
      `sumX = 4 * (above - below)` and Prewitt `sumX = 3 * (below - above)`. */
  lemma KernelsXAlongY(img: Image, name: string, px: nat, py: nat)
    requires Readable(img) && RowsConstant(img) && (name == "Sobel" || name == "Prewitt")
    requires px < img.width && py < img.height
    ensures Gradient(img, KernelsX[name], 3, px, py)
      == if name == "Sobel" then 4 * (GreyAbove(img, py) - GreyBelow(img, py))
         else 3 * (GreyBelow(img, py) - GreyAbove(img, py))
  {
    PresetWeights(name);
    RowsDifference(img, KernelsX[name], px, py, if name == "Sobel" then 4 else -3);
  }

  /** Along x the `kernels_y` entries measure the column left of the pixel against the column
      right of it: on an image whose grey values change only from column to column, Sobel
      gives `sumY = 4 * (left - right)` and Prewitt `sumY = 3 * (right - left)`. */
  lemma KernelsYAlongX(img: Image, name: string, px: nat, py: nat)
    requires Readable(img) && ColumnsConstant(img) && (name == "Sobel" || name == "Prewitt")
    requires px < img.width && py < img.height
    ensures Gradient(img, KernelsY[name], 3, px, py)
      == if name == "Sobel" then 4 * (GreyLeft(img, px) - GreyRight(img, px))
         else 3 * (GreyRight(img, px) - GreyLeft(img, px))
  {
    PresetWeights(name);
    ColumnsDifference(img, KernelsY[name], px, py, if name == "Sobel" then 4 else -3);
  }

  /** The first and last window rows of a 3-wide window read the rows above and below. */
  lemma AboveBelow(img: Image, px: nat, py: nat)
    requires Readable(img) && RowsConstant(img) && px < img.width && py < img.height
    ensures Sample(img, 3, px, py, 0, 0) == GreyAbove(img, py)
    ensures Sample(img, 3, px, py, 0, 2) == GreyBelow(img, py)
  {
    var sx := Resolve(px - 1, img.width);
    assert Grey(img, sx, Resolve(py - 1, img.height)) == GreyAbove(img, py);
    assert Grey(img, sx, Resolve(py + 1, img.height)) == GreyBelow(img, py);
  }

  /** The first and last window columns of a 3-wide window read the columns left and right. */
  lemma LeftRight(img: Image, px: nat, py: nat)
    requires Readable(img) && ColumnsConstant(img) && px < img.width && py < img.height
    ensures Sample(img, 3, px, py, 0, 0) == GreyLeft(img, px)
    ensures Sample(img, 3, px, py, 2, 0) == GreyRight(img, px)
  {
    var sy := Resolve(py - 1, img.height);
    assert Grey(img, Resolve(px - 1, img.width), sy) == GreyLeft(img, px);
    assert Grey(img, Resolve(px + 1, img.width), sy) == GreyRight(img, px);
  }
}
