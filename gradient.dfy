/** The gradient stage (`sobel`, EdgeData.py:18-103): a magnitude and a
    quantised direction for every pixel, computed from two fixed 3x3
    kernels over the eight neighbours of each interior pixel. */
module Gradient {
  import opened Grids

  /** The two kernels, row by row, as EdgeData.py:28-29 writes them. */
  const MatX: seq<seq<int>> := [[-1, 0, 1], [-2, 0, 2], [-1, 0, 1]]
  const MatY: seq<seq<int>> := [[1, 2, 1], [0, 0, 0], [-1, -2, -1]]

  predicate IsKernel(k: seq<seq<int>>) {
    |k| == 3 && |k[0]| == 3 && |k[1]| == 3 && |k[2]| == 3
  }

  predicate IsOffset(n: int) { -1 <= n <= 1 }

  /** The weight the source applies at offset `(n, m)`. The kernel is read
      with `item((n, m))`, whose negative indices wrap around: offset -1
      selects the last row or column, offset 0 the first and offset 1 the
      middle one. */
  function Weight(k: seq<seq<int>>, n: int, m: int): (r: int)
    requires IsKernel(k) && IsOffset(n) && IsOffset(m)
    ensures r == k[if n < 0 then n + 3 else n][if m < 0 then m + 3 else m]
  {
    k[(n + 3) % 3][(m + 3) % 3]
  }

  /** The running sum of the nested loops of EdgeData.py:59-62 just before
      they visit offset `(n, m)`: all kernel rows before `n`, then the
      columns before `m` of row `n`. `(n, 2)` and `(n + 1, -1)` are the same
      point of the loops. */
  function Partial(k: seq<seq<int>>, g: Grid, x: int, y: int, n: int, m: int): int
    requires IsKernel(k) && Rect(g) && Interior(g, x, y) && -1 <= n <= 2 && -1 <= m <= 2
    requires n == 2 ==> m == -1
    decreases 4 * n + m + 5
  {
    if m == -1 then
      if n == -1 then 0 else Partial(k, g, x, y, n - 1, 2)
    else
      Partial(k, g, x, y, n, m - 1) + Weight(k, n, m - 1) * g[x + n][y + m - 1]
  }

  /** The value of `sum_x` / `sum_y` once all nine offsets are visited: the
      weighted sum of the 3x3 block around `(x, y)`. */
  function Convolve(k: seq<seq<int>>, g: Grid, x: int, y: int): (r: int)
    requires IsKernel(k) && Rect(g) && Interior(g, x, y)
    ensures r ==
      Weight(k, -1, -1) * g[x - 1][y - 1] + Weight(k, -1, 0) * g[x - 1][y] + Weight(k, -1, 1) * g[x - 1][y + 1] +
      Weight(k, 0, -1) * g[x][y - 1] + Weight(k, 0, 0) * g[x][y] + Weight(k, 0, 1) * g[x][y + 1] +
      Weight(k, 1, -1) * g[x + 1][y - 1] + Weight(k, 1, 0) * g[x + 1][y] + Weight(k, 1, 1) * g[x + 1][y + 1]
  {
    Partial(k, g, x, y, 2, -1)
  }

  /** Integer square root: what remains of `math.sqrt` once the result is
      stored into an integer matrix. */
  function ISqrt(n: nat): (r: nat)
    ensures r * r <= n < (r + 1) * (r + 1)
  {
    if n < 4 then (if n == 0 then 0 else 1)
    else
      var s := ISqrt(n / 4);
      DoubleRootBounds(n, s);
      if (2 * s + 1) * (2 * s + 1) <= n then 2 * s + 1 else 2 * s
  }

  /** If `s` is the root of `n / 4`, the root of `n` is `2s` or `2s + 1`. */
  lemma DoubleRootBounds(n: nat, s: nat)
    requires s * s <= n / 4 < (s + 1) * (s + 1)
    ensures (2 * s) * (2 * s) <= n < (2 * s + 2) * (2 * s + 2)
  {
    var q := n / 4;
    assert 4 * q <= n < 4 * q + 4;
    assert (2 * s) * (2 * s) == 4 * (s * s);
    assert (2 * s + 2) * (2 * s + 2) == 4 * ((s + 1) * (s + 1));
    assert q + 1 <= (s + 1) * (s + 1);
  }

  /** The stored magnitude: the Euclidean norm of the two sums, truncated to
      an integer and clamped to 255 (EdgeData.py:65-74). */
  function Magnitude(sumX: int, sumY: int): (r: int)
    ensures 0 <= r <= MaxPixel
    ensures r < MaxPixel ==> r * r <= sumX * sumX + sumY * sumY < (r + 1) * (r + 1)
    ensures r == MaxPixel ==> MaxPixel * MaxPixel <= sumX * sumX + sumY * sumY
  {
    var s := ISqrt(sumX * sumX + sumY * sumY);
    if s > MaxPixel then MaxPixel else s
  }

  predicate IsDirection(d: int) {
    d == 0 || d == 45 || d == 90 || d == 135
  }

  /** `theta` lies within 22.5 degrees of the axis `d`, modulo 180 degrees. */
  ghost predicate NearAxis(theta: real, d: int) {
    var t := theta - d as real;
    (-22.5 <= t <= 22.5) || (-22.5 <= t - 180.0 <= 22.5) || (-22.5 <= t + 180.0 <= 22.5)
  }

  /** The quantisation of an angle in degrees, with the exact half-open
      intervals of EdgeData.py:87-97. */
  function Bucket(theta: real): (r: int)
    ensures IsDirection(r)
    ensures -180.0 <= theta <= 180.0 ==> NearAxis(theta, r)
  {
    if (-22.5 <= theta < 22.5) || theta > 157.5 || theta <= -157.5 then 0
    else if (22.5 <= theta < 67.5) || (-157.5 < theta <= -112.5) then 45
    else if (67.5 <= theta < 112.5) || (-112.5 < theta <= -67.5) then 90
    else 135
  }

  /** The stored direction (EdgeData.py:82-97). `atan2Deg(sy, sx)` stands for
      `math.degrees(math.atan2(sy, sx))`, which is not modelled. */
  function Direction(sumX: int, sumY: int, atan2Deg: (int, int) -> real): (r: int)
    ensures IsDirection(r)
    ensures sumX == 0 ==> r == 90
    ensures sumX != 0 ==> r == Bucket(atan2Deg(sumY, sumX))
  {
    if sumX == 0 then 90 else Bucket(atan2Deg(sumY, sumX))
  }

  /** Magnitude of cell `(x, y)` of `sobel(g)`: 0 on the border. */
  function MagAt(g: Grid, x: int, y: int): (r: int)
    requires Rect(g) && InGrid(g, x, y)
    ensures 0 <= r <= MaxPixel
    ensures !Interior(g, x, y) ==> r == 0
  {
    if Interior(g, x, y) then Magnitude(Convolve(MatX, g, x, y), Convolve(MatY, g, x, y)) else 0
  }

  /** Direction of cell `(x, y)` of `sobel(g)`: the initial 0 on the border. */
  function DirAt(g: Grid, atan2Deg: (int, int) -> real, x: int, y: int): (r: int)
    requires Rect(g) && InGrid(g, x, y)
    ensures IsDirection(r)
    ensures !Interior(g, x, y) ==> r == 0
  {
    if Interior(g, x, y) then Direction(Convolve(MatX, g, x, y), Convolve(MatY, g, x, y), atan2Deg) else 0
  }

  /** Each kernel's nine weights sum to zero, so a neighbourhood of equal
      pixels has no gradient: magnitude 0 and, as `sum_x` is 0, direction 90. */
  lemma UniformNeighbourhood(g: Grid, atan2Deg: (int, int) -> real, x: int, y: int)
    requires Rect(g) && Interior(g, x, y)
    requires forall a, b | x - 1 <= a <= x + 1 && y - 1 <= b <= y + 1 :: g[a][b] == g[x][y]
    ensures Convolve(MatX, g, x, y) == 0 && Convolve(MatY, g, x, y) == 0
    ensures MagAt(g, x, y) == 0 && DirAt(g, atan2Deg, x, y) == 90
  {
  }

  /** The nested `n`/`m` loops of EdgeData.py:59-62 at an interior pixel. */
  method WeightedSums(img: Grid, x: int, y: int) returns (sumX: int, sumY: int)
    requires Rect(img) && Interior(img, x, y)
    ensures sumX == Convolve(MatX, img, x, y) && sumY == Convolve(MatY, img, x, y)
  {
    sumX, sumY := 0, 0;
    for n := -1 to 2
      invariant sumX == Partial(MatX, img, x, y, n, -1) && sumY == Partial(MatY, img, x, y, n, -1)
    {
      for m := -1 to 2
        invariant sumX == Partial(MatX, img, x, y, n, m) && sumY == Partial(MatY, img, x, y, n, m)
      {
        sumX := sumX + Weight(MatX, n, m) * img[x + n][y + m];
        sumY := sumY + Weight(MatY, n, m) * img[x + n][y + m];
      }
    }
  }

  /** The magnitude matrix of `sobel(g)`. */
  ghost function MagGrid(g: Grid): (r: Grid)
    requires Rect(g)
    ensures |r| == |g| && forall a | 0 <= a < |g| :: |r[a]| == Cols(g)
    ensures forall a, b | InGrid(g, a, b) :: r[a][b] == MagAt(g, a, b)
  {
    seq(|g|, a requires 0 <= a < |g| => seq(Cols(g), b requires 0 <= b < Cols(g) => MagAt(g, a, b)))
  }

  /** The direction matrix of `sobel(g)`. */
  ghost function DirGrid(g: Grid, atan2Deg: (int, int) -> real): (r: Grid)
    requires Rect(g)
    ensures |r| == |g| && forall a | 0 <= a < |g| :: |r[a]| == Cols(g)
    ensures forall a, b | InGrid(g, a, b) :: r[a][b] == DirAt(g, atan2Deg, a, b)
  {
    seq(|g|, a requires 0 <= a < |g| => seq(Cols(g), b requires 0 <= b < Cols(g) => DirAt(g, atan2Deg, a, b)))
  }

  /** One iteration of the `y` loop of EdgeData.py:49-100: pixel `(x, y)`
      gets its magnitude and, when interior, its direction. */
  method SobelPixel(img: Grid, atan2Deg: (int, int) -> real, mags: array2<int>, dirs: array2<int>,
                    x: int, y: int, ghost mg: Grid, ghost dg: Grid) returns (mag: int)
    requires Rect(img) && InGrid(img, x, y)
    requires mags.Length0 == dirs.Length0 == |img| && mags.Length1 == dirs.Length1 == Cols(img)
    requires mags != dirs && dirs[x, y] == 0
    requires mg == MagGrid(img) && dg == DirGrid(img, atan2Deg)
    modifies mags, dirs
    ensures mags[x, y] == mag == mg[x][y] && dirs[x, y] == dg[x][y]
    ensures !Interior(img, x, y) ==> mag == 0
    ensures forall a, b | 0 <= a < mags.Length0 && 0 <= b < mags.Length1 && (a != x || b != y) ::
      mags[a, b] == old(mags[a, b]) && dirs[a, b] == old(dirs[a, b])
  {
    var w, h := |img|, Cols(img);
    if x == 0 || y == 0 || x == w - 1 || y == h - 1 {
      mag := 0;
      mags[x, y] := mag;
    } else {
      var sumX, sumY := WeightedSums(img, x, y);
      mag := Magnitude(sumX, sumY);
      mags[x, y] := mag;
      dirs[x, y] := Direction(sumX, sumY, atan2Deg);
    }
  }

  /** The `y` loop of EdgeData.py:49-100 for row `x`: every pixel of the row
      gets its magnitude and direction, and the running maximum grows to cover
      the row; `(mx, my)` is where the maximum was found. */
  method SobelRow(img: Grid, atan2Deg: (int, int) -> real, mags: array2<int>, dirs: array2<int>, x: int,
                  maxMag0: int, ghost mg: Grid, ghost dg: Grid, ghost mx0: int, ghost my0: int)
    returns (maxMag: int, ghost mx: int, ghost my: int)
    requires Rect(img) && 0 <= x < |img|
    requires mags.Length0 == dirs.Length0 == |img| && mags.Length1 == dirs.Length1 == Cols(img)
    requires mags != dirs && forall b | 0 <= b < Cols(img) :: dirs[x, b] == 0
    requires mg == MagGrid(img) && dg == DirGrid(img, atan2Deg)
    requires 0 <= maxMag0 <= MaxPixel
    requires maxMag0 != 0 ==> 0 <= mx0 < x && 0 <= my0 < Cols(img) && Interior(img, mx0, my0) && mg[mx0][my0] == maxMag0
    modifies mags, dirs
    ensures forall b | 0 <= b < Cols(img) :: mags[x, b] == mg[x][b] && dirs[x, b] == dg[x][b]
    ensures forall a, b | 0 <= a < |img| && a != x && 0 <= b < Cols(img) ::
      mags[a, b] == old(mags[a, b]) && dirs[a, b] == old(dirs[a, b])
    ensures maxMag0 <= maxMag <= MaxPixel
    ensures forall b | 0 <= b < Cols(img) :: mg[x][b] <= maxMag
    ensures maxMag != 0 ==> 0 <= mx <= x && 0 <= my < Cols(img) && Interior(img, mx, my) && mg[mx][my] == maxMag
  {
    var h := Cols(img);
    maxMag, mx, my := maxMag0, mx0, my0;
    for y := 0 to h
      invariant forall b | 0 <= b < y :: mags[x, b] == mg[x][b] && dirs[x, b] == dg[x][b]
      invariant forall b | y <= b < h :: dirs[x, b] == 0
      invariant forall a, b | 0 <= a < |img| && a != x && 0 <= b < h ::
        mags[a, b] == old(mags[a, b]) && dirs[a, b] == old(dirs[a, b])
      invariant maxMag0 <= maxMag <= MaxPixel
      invariant forall b | 0 <= b < y :: mg[x][b] <= maxMag
      invariant maxMag != 0 ==> 0 <= mx <= x && 0 <= my < h && Interior(img, mx, my) && mg[mx][my] == maxMag
    {
      var mag := SobelPixel(img, atan2Deg, mags, dirs, x, y, mg, dg);
      if mag > maxMag {
        maxMag := mag;
        mx, my := x, y;
      }
    }
  }

  /** `sobel` (EdgeData.py:18-103): `mags` starts as a copy of the image and
      `dirs` as zeros; every pixel of `mags` is then overwritten. The progress
      output is left out. */
  method Sobel(img: Grid, atan2Deg: (int, int) -> real)
    returns (mags: array2<int>, dirs: array2<int>, maxMag: int)
    requires Rect(img)
    ensures mags.Length0 == dirs.Length0 == |img| && mags.Length1 == dirs.Length1 == Cols(img)
    ensures forall x, y | InGrid(img, x, y) ::
      mags[x, y] == MagAt(img, x, y) && dirs[x, y] == DirAt(img, atan2Deg, x, y)
    ensures 0 <= maxMag <= MaxPixel
    ensures forall x, y | InGrid(img, x, y) :: mags[x, y] <= maxMag
    ensures maxMag == 0 || exists x, y | InGrid(img, x, y) :: Interior(img, x, y) && mags[x, y] == maxMag
  {
    var w, h := |img|, Cols(img);
    mags := ToMatrix(img);
    dirs := new int[w, h]((_, _) => 0);
    maxMag := 0;
    ghost var mg, dg := MagGrid(img), DirGrid(img, atan2Deg);
    // where the current maximum was found
    ghost var mx, my := 0, 0;
    for x := 0 to w
      invariant forall a, b | 0 <= a < x && 0 <= b < h :: mags[a, b] == mg[a][b] && dirs[a, b] == dg[a][b]
      invariant forall a, b | x <= a < w && 0 <= b < h :: dirs[a, b] == 0
      invariant 0 <= maxMag <= MaxPixel
      invariant forall a, b | 0 <= a < x && 0 <= b < h :: mg[a][b] <= maxMag
      invariant maxMag != 0 ==> 0 <= mx < x && 0 <= my < h && Interior(img, mx, my) && mg[mx][my] == maxMag
    {
      maxMag, mx, my := SobelRow(img, atan2Deg, mags, dirs, x, maxMag, mg, dg, mx, my);
    }
  }
}
