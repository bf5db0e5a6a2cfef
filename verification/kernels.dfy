/** The catalogue of directional gradient kernels: two tables indexed by kernel name,
    `kernels_x` and `kernels_y`, each giving one kernel of every pair. Which direction each
    entry responds to is proved in `Orientation`. */
module Kernels {

  /** A kernel as a list of lists; entry `k[x][y]` weighs the sample at horizontal offset `x`
      and vertical offset `y` of the window. */
  type Matrix = seq<seq<int>>

  datatype KernelPair = KernelPair(kx: Matrix, ky: Matrix)

  /** Outcome of looking a name up in both tables. */
  datatype Lookup = Found(pair: KernelPair) | NotFound(name: string)

  const PresetNames: set<string> := {"Sobel", "Roberts", "Prewitt"}

  /** The table `kernels_x`, driving `sumX`. Read as `k[x][y]`, its Sobel and Prewitt entries
      respond to change along y (`Orientation.KernelsXAlongY`). */
  const KernelsX: map<string, Matrix> := map[
    "Sobel" := [[1, 0, -1],
                [2, 0, -2],
                [1, 0, -1]],
    "Roberts" := [[1, 0],
                  [0, -1]],
    "Prewitt" := [[-1, 0, 1],
                  [-1, 0, 1],
                  [-1, 0, 1]]]

  /** The table `kernels_y`, driving `sumY`. Read as `k[x][y]`, its Sobel and Prewitt entries
      respond to change along x (`Orientation.KernelsYAlongX`). */
  const KernelsY: map<string, Matrix> := map[
    "Sobel" := [[1, 2, 1],
                [0, 0, 0],
                [-1, -2, -1]],
    "Roberts" := [[0, 1],
                  [-1, 0]],
    "Prewitt" := [[-1, -1, -1],
                  [0, 0, 0],
                  [1, 1, 1]]]

  /** `step = len(kernel_x[0])`, the side of the window. */
  function Step(kp: KernelPair): nat
  {
    if |kp.kx| == 0 then 0 else |kp.kx[0]|
  }

  /** The half-width `step / 2` (floor division). */
  function Half(step: nat): (h: nat)
    ensures 2 * h <= step < 2 * h + 2
  {
    step / 2
  }

  ghost predicate IsSquare(k: Matrix, n: nat)
  {
    |k| == n && forall i :: 0 <= i < n ==> |k[i]| == n
  }

  /** A pair both of whose kernels are `step`-square, with a window small enough that every
      sample lies at most one cell beyond the image border. */
  ghost predicate Usable(kp: KernelPair)
  {
    1 <= Step(kp) <= 3 && IsSquare(kp.kx, Step(kp)) && IsSquare(kp.ky, Step(kp))
  }

  /** `kernels_x[name]` followed by `kernels_y[name]`; a missing name raises `KeyError`. */
  function LookupKernels(name: string): (r: Lookup)
    ensures r.Found? <==> name in PresetNames
    ensures r.NotFound? ==> r.name == name
    ensures r.Found? ==> Usable(r.pair)
    ensures r.Found? ==> Step(r.pair) == (if name == "Roberts" then 2 else 3)
  {
    if name !in KernelsX then NotFound(name)
    else if name !in KernelsY then NotFound(name)
    else Found(KernelPair(KernelsX[name], KernelsY[name]))
  }

  /** Sum of `k[x][y]` over `x < n`: the coefficients of kernel row `y` that the kernel-column
      loop has visited. */
  function RowWeight(k: Matrix, y: nat, n: nat): int
    requires n <= |k| && forall x :: 0 <= x < n ==> y < |k[x]|
  {
    if n == 0 then 0 else RowWeight(k, y, n - 1) + k[n - 1][y]
  }

  /** Sum of the first `rows` kernel rows of an `n`-square kernel, visited as the loops visit them. */
  function Weight(k: Matrix, rows: nat, n: nat): int
    requires IsSquare(k, n) && rows <= n
  {
    if rows == 0 then 0 else Weight(k, rows - 1, n) + RowWeight(k, rows - 1, n)
  }

  /** The kernel with its negative coefficients replaced by zero. */
  function PositivePart(k: Matrix): (p: Matrix)
    ensures |p| == |k|
    ensures forall i :: 0 <= i < |k| ==> |p[i]| == |k[i]|
  {
    seq(|k|, i requires 0 <= i < |k| =>
      seq(|k[i]|, j requires 0 <= j < |k[i]| => if 0 < k[i][j] then k[i][j] else 0))
  }

  /** The kernel with its positive coefficients replaced by zero. */
  function NegativePart(k: Matrix): (p: Matrix)
    ensures |p| == |k|
    ensures forall i :: 0 <= i < |k| ==> |p[i]| == |k[i]|
  {
    seq(|k|, i requires 0 <= i < |k| =>
      seq(|k[i]|, j requires 0 <= j < |k[i]| => if k[i][j] < 0 then k[i][j] else 0))
  }

  /** The weight of a 3-square kernel, entry by entry. */
  lemma Weight3(k: Matrix)
    requires IsSquare(k, 3)
    ensures Weight(k, 3, 3) == k[0][0] + k[1][0] + k[2][0] + k[0][1] + k[1][1] + k[2][1]
                               + k[0][2] + k[1][2] + k[2][2]
  {
    forall y | 0 <= y < 3
      ensures RowWeight(k, y, 3) == k[0][y] + k[1][y] + k[2][y]
    {
      assert RowWeight(k, y, 1) == k[0][y];
    }
    assert Weight(k, 1, 3) == RowWeight(k, 0, 3);
  }

  /** The weight of a 2-square kernel, entry by entry. */
  lemma Weight2(k: Matrix)
    requires IsSquare(k, 2)
    ensures Weight(k, 2, 2) == k[0][0] + k[1][0] + k[0][1] + k[1][1]
  {
    forall y | 0 <= y < 2
      ensures RowWeight(k, y, 2) == k[0][y] + k[1][y]
    {
      assert RowWeight(k, y, 1) == k[0][y];
    }
    assert Weight(k, 1, 2) == RowWeight(k, 0, 2);
  }

  /** Facts about the weight of every square kernel of a side the catalogue uses. */
  lemma WeightEntries(k: Matrix, n: nat)
    requires n == 2 || n == 3
    requires IsSquare(k, n)
    ensures IsSquare(PositivePart(k), n) && IsSquare(NegativePart(k), n)
    ensures n == 3 ==> Weight(k, 3, 3) == k[0][0] + k[1][0] + k[2][0] + k[0][1] + k[1][1] + k[2][1]
                                         + k[0][2] + k[1][2] + k[2][2]
    ensures n == 2 ==> Weight(k, 2, 2) == k[0][0] + k[1][0] + k[0][1] + k[1][1]
  {
    if n == 3 { Weight3(k); } else { Weight2(k); }
  }

  /** Every preset kernel is a difference operator: its coefficients sum to zero. */
  lemma PresetsSumToZero(name: string)
    requires name in PresetNames
    ensures LookupKernels(name).Found?
    ensures var kp := LookupKernels(name).pair;
      Weight(kp.kx, Step(kp), Step(kp)) == 0 && Weight(kp.ky, Step(kp), Step(kp)) == 0
  {
    var kp := LookupKernels(name).pair;
    WeightEntries(kp.kx, Step(kp));
    WeightEntries(kp.ky, Step(kp));
  }

  /** The positive coefficients of every preset kernel add up to at most 4 and the negative
      ones to at least -4, so a window of bytes weighs between -4*255 and 4*255. */
  lemma PresetWeightBounds(name: string)
    requires name in PresetNames
    ensures LookupKernels(name).Found?
    ensures var kp := LookupKernels(name).pair; var n := Step(kp);
      && IsSquare(PositivePart(kp.kx), n) && IsSquare(NegativePart(kp.kx), n)
      && IsSquare(PositivePart(kp.ky), n) && IsSquare(NegativePart(kp.ky), n)
      && Weight(PositivePart(kp.kx), n, n) <= 4 && -4 <= Weight(NegativePart(kp.kx), n, n)
      && Weight(PositivePart(kp.ky), n, n) <= 4 && -4 <= Weight(NegativePart(kp.ky), n, n)
  {
    var kp := LookupKernels(name).pair;
    var n := Step(kp);
    WeightEntries(kp.kx, n);
    WeightEntries(kp.ky, n);
    WeightEntries(PositivePart(kp.kx), n);
    WeightEntries(NegativePart(kp.kx), n);
    WeightEntries(PositivePart(kp.ky), n);
    WeightEntries(NegativePart(kp.ky), n);
  }
}
