/** Non-maximum suppression (`nonmax_supp`, EdgeData.py:110-144): an interior
    pixel is zeroed when one of the two neighbours facing each other across it
    along its direction is larger. The pass works in place on a copy in
    row-major order, so the neighbours visited before a pixel are read with
    their suppressed values and the others with their original ones. */
module Suppression {
  import opened Grids

  /** The two neighbours compared at `(x, y)` for direction `theta`, in the
      order of EdgeData.py:121-136. Any direction other than 0, 45 and 90
      (in particular 135) takes the `else` branch, which compares the same
      diagonal pair as 45. */
  function Compared(theta: int, x: int, y: int): (r: (Cell, Cell))
    ensures r.0.0 + r.1.0 == 2 * x && r.0.1 + r.1.1 == 2 * y
    ensures -1 <= r.0.0 - x <= 1 && -1 <= r.0.1 - y <= 1 && r.0 != (x, y)
    ensures theta == 0 ==> r.0.0 == x
    ensures theta == 90 ==> r.0.1 == y
    ensures theta != 0 && theta != 90 ==> r.0.0 - x == r.0.1 - y
  {
    if theta == 0 then ((x, y + 1), (x, y - 1))
    else if theta == 45 then ((x - 1, y - 1), (x + 1, y + 1))
    else if theta == 90 then ((x - 1, y), (x + 1, y))
    else ((x + 1, y + 1), (x - 1, y - 1))
  }

  predicate Inputs(g: Grid, d: Grid) {
    Rect(g) && Rect(d) && SameShape(g, d)
  }

  /** The value cell `(x, y)` of `nonmax_supp(g, d)` ends up with. */
  function Suppressed(g: Grid, d: Grid, x: int, y: int): (r: int)
    requires Inputs(g, d) && InGrid(g, x, y)
    ensures r == g[x][y] || r == 0
    ensures !Interior(g, x, y) ==> r == g[x][y]
    decreases x, y
  {
    if !Interior(g, x, y) then g[x][y]
    else
      var (c1, c2) := Compared(d[x][y], x, y);
      var p1 := Seen(g, d, x, y, c1);
      var p2 := Seen(g, d, x, y, c2);
      if g[x][y] < p1 || g[x][y] < p2 then 0 else g[x][y]
  }

  /** The value the pass reads at neighbour `c` while visiting `(x, y)`:
      the result for a neighbour it has already visited, the input value
      for one it has not. */
  function Seen(g: Grid, d: Grid, x: int, y: int, c: Cell): (r: int)
    requires Inputs(g, d) && InGrid(g, c.0, c.1) && 0 <= x
    ensures r == g[c.0][c.1] || r == 0
    decreases x, y, 0
  {
    if RasterBefore(c.0, c.1, x, y) then Suppressed(g, d, c.0, c.1) else g[c.0][c.1]
  }

  predicate NonNegative(g: Grid) {
    forall x, y | 0 <= x < |g| && 0 <= y < |g[x]| :: g[x][y] >= 0
  }

  /** On non-negative magnitudes suppression only lowers a pixel. */
  lemma SuppressedAtMost(g: Grid, d: Grid, x: int, y: int)
    requires Inputs(g, d) && InGrid(g, x, y) && NonNegative(g)
    ensures 0 <= Suppressed(g, d, x, y) <= g[x][y]
  {
  }

  /** A pixel at least as large as both input neighbours along its direction
      is kept, whatever the pass did to the neighbours before it. */
  lemma LocalMaxKept(g: Grid, d: Grid, x: int, y: int)
    requires Inputs(g, d) && Interior(g, x, y) && NonNegative(g)
    requires var (c1, c2) := Compared(d[x][y], x, y);
      g[x][y] >= g[c1.0][c1.1] && g[x][y] >= g[c2.0][c2.1]
    ensures Suppressed(g, d, x, y) == g[x][y]
  {
    var (c1, c2) := Compared(d[x][y], x, y);
    SuppressedAtMost(g, d, c1.0, c1.1);
    SuppressedAtMost(g, d, c2.0, c2.1);
  }

  /** In the output, every interior pixel that survives is at least as large
      as both of its compared neighbours, read in the output as well. */
  lemma SurvivorIsLocalMax(g: Grid, d: Grid, x: int, y: int)
    requires Inputs(g, d) && Interior(g, x, y) && NonNegative(g)
    requires Suppressed(g, d, x, y) != 0
    ensures var (c1, c2) := Compared(d[x][y], x, y);
      Suppressed(g, d, x, y) >= Suppressed(g, d, c1.0, c1.1) &&
      Suppressed(g, d, x, y) >= Suppressed(g, d, c2.0, c2.1)
  {
    var (c1, c2) := Compared(d[x][y], x, y);
    SuppressedAtMost(g, d, c1.0, c1.1);
    SuppressedAtMost(g, d, c2.0, c2.1);
  }

  /** The output as a grid. */
  ghost function SupGrid(g: Grid, d: Grid): (r: Grid)
    requires Inputs(g, d)
    ensures |r| == |g| && forall a | 0 <= a < |g| :: |r[a]| == Cols(g)
    ensures forall a, b | InGrid(g, a, b) :: r[a][b] == Suppressed(g, d, a, b)
  {
    seq(|g|, a requires 0 <= a < |g| => seq(Cols(g), b requires 0 <= b < Cols(g) => Suppressed(g, d, a, b)))
  }

  /** The `y` loop of EdgeData.py:116-142 for interior row `x`. */
  method SuppressRow(mags: Grid, dirs: Grid, out: array2<int>, x: int, ghost sg: Grid)
    requires Inputs(mags, dirs) && 0 < x < |mags| - 1
    requires out.Length0 == |mags| && out.Length1 == Cols(mags) && sg == SupGrid(mags, dirs)
    requires forall a, b | InGrid(mags, a, b) :: out[a, b] == if a < x then sg[a][b] else mags[a][b]
    modifies out
    ensures forall a, b | InGrid(mags, a, b) :: out[a, b] == if a <= x then sg[a][b] else mags[a][b]
  {
    var h: int := Cols(mags);
    var y := 1;
    while y < h - 1
      invariant 1 <= y <= if h >= 2 then h - 1 else 1
      invariant forall a, b | InGrid(mags, a, b) ::
        out[a, b] == if RasterBefore(a, b, x, y) then sg[a][b] else mags[a][b]
    {
      var theta := dirs[x][y];
      var cur := out[x, y];
      var p1, p2;
      if theta == 0 {
        p1, p2 := out[x, y + 1], out[x, y - 1];
      } else if theta == 45 {
        p1, p2 := out[x - 1, y - 1], out[x + 1, y + 1];
      } else if theta == 90 {
        p1, p2 := out[x - 1, y], out[x + 1, y];
      } else {
        p1, p2 := out[x + 1, y + 1], out[x - 1, y - 1];
      }
      if cur < p1 || cur < p2 {
        out[x, y] := 0;
      }
      assert out[x, y] == Suppressed(mags, dirs, x, y);
      y := y + 1;
    }
  }

  /** `nonmax_supp` (EdgeData.py:110-144) on the magnitude grid `mags` and
      direction grid `dirs`; the inputs are values, so they stay unchanged. */
  method NonMaxSupp(mags: Grid, dirs: Grid) returns (out: array2<int>)
    requires Inputs(mags, dirs)
    ensures out.Length0 == |mags| && out.Length1 == Cols(mags)
    ensures forall x, y | InGrid(mags, x, y) :: out[x, y] == Suppressed(mags, dirs, x, y)
  {
    var w: int := |mags|;
    out := ToMatrix(mags);
    ghost var sg := SupGrid(mags, dirs);
    var x := 1;
    while x < w - 1
      invariant 1 <= x <= if w >= 2 then w - 1 else 1
      invariant forall a, b | InGrid(mags, a, b) :: out[a, b] == if a < x then sg[a][b] else mags[a][b]
    {
      SuppressRow(mags, dirs, out, x, sg);
      x := x + 1;
    }
  }
}
