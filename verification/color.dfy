/** Channel arithmetic: clamping to the 8-bit range, the integer square root that stands
    for `int(math.sqrt(n))`, and the synthesis of an output colour from the two gradients. */
module Color {

  import opened Arith

  const MaxChannel: int := 255

  /** The colour mode that selects the red/blue rendering; every other value renders grey. */
  const RedBlueMode: int := 1

  function Min(a: int, b: int): int { if a <= b then a else b }

  function Max(a: int, b: int): int { if a >= b then a else b }

  /** `clamp_color_value`: `max(min(255, value), 0)`. */
  function Clamp(v: int): (r: int)
    ensures 0 <= r <= MaxChannel
    ensures 0 <= v <= MaxChannel ==> r == v
    ensures v < 0 ==> r == 0
    ensures MaxChannel < v ==> r == MaxChannel
  {
    Max(Min(MaxChannel, v), 0)
  }

  /** Clamping twice is clamping once. */
  lemma ClampIdempotent(v: int)
    ensures Clamp(Clamp(v)) == Clamp(v)
  {
  }

  /** Clamping preserves the order of its arguments. */
  lemma ClampMonotone(a: int, b: int)
    requires a <= b
    ensures Clamp(a) <= Clamp(b)
  {
  }

  /** `r` is the floor of the square root of `n`. */
  ghost predicate IsFloorSqrt(n: nat, r: nat)
  {
    r * r <= n < (r + 1) * (r + 1)
  }

  /** Squares of naturals are monotone. */
  lemma SquareMonotone(a: nat, b: nat)
    requires a <= b
    ensures a * a <= b * b
  {
    MulMonotone(a, b, a);
    MulMonotone(a, b, b);
  }

  /** One halving step of `Isqrt`: doubling the root of `n / 4` brackets the root of `n`. */
  lemma DoubledRoot(n: nat, t: nat)
    requires IsFloorSqrt(n / 4, t)
    ensures (2 * t) * (2 * t) <= n < (2 * t + 2) * (2 * t + 2)
  {
    var q := n / 4;
    assert n == 4 * q + n % 4;
    assert (2 * t) * (2 * t) == 4 * (t * t);
    assert (2 * t + 2) * (2 * t + 2) == 4 * ((t + 1) * (t + 1));
    assert q + 1 <= (t + 1) * (t + 1);
  }

  /** Integer floor square root, by halving the root of `n / 4`. */
  function Isqrt(n: nat): (r: nat)
    ensures IsFloorSqrt(n, r)
    decreases n
  {
    if n < 2 then n
    else
      var t := Isqrt(n / 4);
      DoubledRoot(n, t);
      var s := 2 * t;
      if (s + 1) * (s + 1) <= n then s + 1 else s
  }

  /** The floor square root is unique, so `Isqrt` agrees with every definition of it,
      `int(math.sqrt(n))` included whenever the floating-point root is exact enough. */
  lemma IsqrtUnique(n: nat, r: nat)
    requires IsFloorSqrt(n, r)
    ensures Isqrt(n) == r
  {
    var s := Isqrt(n);
    if s < r {
      SquareMonotone(s + 1, r);
      assert false;
    } else if r < s {
      SquareMonotone(r + 1, s);
      assert false;
    }
  }

  /** Channels 0..2 of an output pixel from the gradient sums `sumX` and `sumY`:
      red/blue mode writes `clamp(gx)`, `clamp(gy / 2)` (floor division), `clamp(gy)`;
      any other mode writes the clamped floor of the gradient magnitude to all three. */
  function Synthesize(mode: int, gx: int, gy: int): (px: seq<int>)
    ensures |px| == 3
    ensures forall c :: 0 <= c < 3 ==> 0 <= px[c] <= MaxChannel
    ensures mode == RedBlueMode ==> px[0] == Clamp(gx) && px[1] == Clamp(gy / 2) && px[2] == Clamp(gy)
    ensures mode == RedBlueMode ==> px[1] <= px[2]
    ensures mode == RedBlueMode && gy < 0 ==> px[1] == 0 && px[2] == 0
    ensures mode != RedBlueMode ==> px[0] == px[1] == px[2]
    ensures mode != RedBlueMode ==> px[0] * px[0] <= gx * gx + gy * gy
    ensures mode != RedBlueMode ==> px[0] == MaxChannel || gx * gx + gy * gy < (px[0] + 1) * (px[0] + 1)
  {
    if mode == RedBlueMode then
      assert gy < 0 ==> gy / 2 < 0;
      assert 0 <= gy ==> gy / 2 <= gy;
      [Clamp(gx), Clamp(gy / 2), Clamp(gy)]
    else
      var n: nat := gx * gx + gy * gy;
      var root := Isqrt(n);
      var m := Clamp(root);
      assert m * m <= n by {
        if MaxChannel < root {
          SquareMonotone(MaxChannel, root);
        }
      }
      [m, m, m]
  }

  /** Where neither gradient sees an edge the pixel is black, in either colour mode. */
  lemma NoEdgeIsBlack(mode: int)
    ensures Synthesize(mode, 0, 0) == [0, 0, 0]
  {
  }
}
