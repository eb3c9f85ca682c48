/** Two-dimensional integer grids: the value view of the numpy matrices the
    edge and plate code works on. `g[x][y]` is row `x` (numpy axis 0) and
    column `y` (numpy axis 1). Methods work on `array2<int>` as the source
    works on numpy matrices; their contracts speak about `Cells(a)`. */
module Grids {

  type Grid = seq<seq<int>>
  type Cell = (int, int)

  /** The largest value a pixel may hold (MAX_PIXEL). */
  const MaxPixel := 255

  /** Number of columns; 0 for a grid without rows. */
  function Cols(g: Grid): nat {
    if |g| == 0 then 0 else |g[0]|
  }

  /** Every row has the same length. */
  predicate Rect(g: Grid) {
    forall x | 0 <= x < |g| :: |g[x]| == Cols(g)
  }

  predicate InGrid(g: Grid, x: int, y: int) {
    0 <= x < |g| && 0 <= y < Cols(g)
  }

  predicate SameShape(a: Grid, b: Grid) {
    |a| == |b| && Cols(a) == Cols(b)
  }

  /** Not on the first or last row or column. */
  predicate Interior(g: Grid, x: int, y: int) {
    0 < x < |g| - 1 && 0 < y < Cols(g) - 1
  }

  /** `(a, b)` is one of the four neighbours of `(x, y)`. */
  predicate Adjacent4(x: int, y: int, a: int, b: int) {
    (a == x && (b == y - 1 || b == y + 1)) || (b == y && (a == x - 1 || a == x + 1))
  }

  /** Row-major order: `(a0, a1)` is visited before `(b0, b1)`. */
  predicate RasterBefore(a0: int, a1: int, b0: int, b1: int) {
    a0 < b0 || (a0 == b0 && a1 < b1)
  }

  /** The contents of a matrix as a grid value. */
  ghost function Cells(a: array2<int>): (g: Grid)
    reads a
    ensures |g| == a.Length0 && Rect(g)
    ensures |g| > 0 ==> Cols(g) == a.Length1
    ensures forall x, y | 0 <= x < a.Length0 && 0 <= y < a.Length1 :: g[x][y] == a[x, y]
  {
    seq(a.Length0, x requires 0 <= x < a.Length0 reads a =>
      seq(a.Length1, y requires 0 <= y < a.Length1 reads a => a[x, y]))
  }

  /** `g` with the single cell `(x, y)` set to `v`. */
  function Update(g: Grid, x: int, y: int, v: int): (r: Grid)
    requires Rect(g) && InGrid(g, x, y)
    ensures Rect(r) && SameShape(r, g)
    ensures r[x][y] == v
    ensures forall a, b | InGrid(g, a, b) && (a != x || b != y) :: r[a][b] == g[a][b]
  {
    g[x := g[x][y := v]]
  }

  /** Two grids of the same shape that agree on every cell are equal. */
  lemma GridEq(a: Grid, b: Grid)
    requires Rect(a) && Rect(b) && SameShape(a, b)
    requires forall x, y | InGrid(a, x, y) :: a[x][y] == b[x][y]
    ensures a == b
  {
    forall x | 0 <= x < |a|
      ensures a[x] == b[x]
    {
      assert |a[x]| == |b[x]|;
      forall y | 0 <= y < |a[x]| ensures a[x][y] == b[x][y] {
        assert InGrid(a, x, y);
      }
    }
  }

  /** `a.itemset((x, y), v)`: the matrix's contents become `Update(.., x, y, v)`. */
  method ItemSet(a: array2<int>, x: int, y: int, v: int)
    requires 0 <= x < a.Length0 && 0 <= y < a.Length1
    modifies a
    ensures Cells(a) == Update(old(Cells(a)), x, y, v)
  {
    ghost var g := Cells(a);
    a[x, y] := v;
    GridEq(Cells(a), Update(g, x, y, v));
  }

  /** A fresh matrix holding the grid: numpy's `copy()` of a matrix whose
      contents are `g`. */
  method ToMatrix(g: Grid) returns (a: array2<int>)
    requires Rect(g)
    ensures fresh(a) && a.Length0 == |g| && a.Length1 == Cols(g)
    ensures forall x, y | InGrid(g, x, y) :: a[x, y] == g[x][y]
  {
    a := new int[|g|, Cols(g)]((x, y) => if InGrid(g, x, y) then g[x][y] else 0);
  }
}
