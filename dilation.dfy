/** Edge dilation (`edge_dilation`, EdgeData.py:215-232): `num` generations
    over a copy of the edge grid. In generation `i` every pixel of value at
    least 256 - i, visited in row-major order, writes 255 - i into its first
    zero 4-neighbour, trying up, left, down and right in turn. */
module Dilation {
  import opened Grids

  /** Some in-grid 4-neighbour of `(x, y)` is zero. */
  ghost predicate HasZeroNeighbour(g: Grid, x: int, y: int)
    requires Rect(g)
  {
    exists a, b | InGrid(g, a, b) && Adjacent4(x, y, a, b) :: g[a][b] == 0
  }

  /** Whether pixel `(x, y)` spreads in generation `i` (EdgeData.py:223). */
  predicate Spreads(g: Grid, i: int, x: int, y: int)
    requires Rect(g) && InGrid(g, x, y)
  {
    g[x][y] >= MaxPixel - i + 1
  }

  /** The grid after generation `i` visits pixel `(x, y)` (EdgeData.py:223-231). */
  function Visit(g: Grid, i: int, x: int, y: int): (r: Grid)
    requires Rect(g) && InGrid(g, x, y)
    ensures Rect(r) && SameShape(r, g)
    ensures forall a, b | InGrid(g, a, b) ::
      r[a][b] == g[a][b] || (g[a][b] == 0 && r[a][b] == MaxPixel - i && Adjacent4(x, y, a, b))
    ensures forall a, b, c, d | InGrid(g, a, b) && InGrid(g, c, d) && r[a][b] != g[a][b] && r[c][d] != g[c][d] ::
      a == c && b == d
    ensures i != MaxPixel ==> (r != g <==> Spreads(g, i, x, y) && HasZeroNeighbour(g, x, y))
    // the written neighbour is the first zero one in the order up, left, down, right
    ensures y != 0 && r[x][y - 1] != g[x][y - 1] ==> x == 0 || g[x - 1][y] != 0
    ensures x != |g| - 1 && r[x + 1][y] != g[x + 1][y] ==>
      (x == 0 || g[x - 1][y] != 0) && (y == 0 || g[x][y - 1] != 0)
    ensures y != Cols(g) - 1 && r[x][y + 1] != g[x][y + 1] ==>
      (x == 0 || g[x - 1][y] != 0) && (y == 0 || g[x][y - 1] != 0) && (x == |g| - 1 || g[x + 1][y] != 0)
  {
    var v := MaxPixel - i;
    if Spreads(g, i, x, y) then
      if x != 0 && g[x - 1][y] == 0 then Update(g, x - 1, y, v)
      else if y != 0 && g[x][y - 1] == 0 then Update(g, x, y - 1, v)
      else if x != |g| - 1 && g[x + 1][y] == 0 then Update(g, x + 1, y, v)
      else if y != Cols(g) - 1 && g[x][y + 1] == 0 then Update(g, x, y + 1, v)
      else
        assert !HasZeroNeighbour(g, x, y);
        g
    else g
  }

  /** Every pixel either keeps its value or was zero and now holds
      `255 - i`. */
  ghost predicate FillsZeros(g: Grid, r: Grid, i: int)
    requires Rect(g) && Rect(r) && SameShape(g, r)
  {
    forall a, b | InGrid(g, a, b) :: r[a][b] == g[a][b] || (g[a][b] == 0 && r[a][b] == MaxPixel - i)
  }

  /** Generation `i` after visiting the first `n` pixels of row `x`. */
  function RowPrefix(g: Grid, i: int, x: int, n: int): (r: Grid)
    requires Rect(g) && 0 <= x < |g| && 0 <= n <= Cols(g)
    ensures Rect(r) && SameShape(r, g) && FillsZeros(g, r, i)
  {
    if n == 0 then g else Visit(RowPrefix(g, i, x, n - 1), i, x, n - 1)
  }

  /** Generation `i` after visiting the first `n` rows. */
  function PassPrefix(g: Grid, i: int, n: int): (r: Grid)
    requires Rect(g) && 0 <= n <= |g|
    ensures Rect(r) && SameShape(r, g) && FillsZeros(g, r, i)
  {
    if n == 0 then g else RowPrefix(PassPrefix(g, i, n - 1), i, n - 1, Cols(g))
  }

  /** One whole generation. Pixels written in generation `i` hold `255 - i`,
      below the spreading bound `256 - i`, and for `1 <= i <= 255` zero
      pixels do not spread, so the pixels that spread are the same at the end
      of the pass as at its start. */
  function Pass(g: Grid, i: int): (r: Grid)
    requires Rect(g)
    ensures Rect(r) && SameShape(r, g) && FillsZeros(g, r, i)
    ensures 1 <= i <= MaxPixel ==> forall a, b | InGrid(g, a, b) :: Spreads(r, i, a, b) <==> Spreads(g, i, a, b)
  {
    PassPrefix(g, i, |g|)
  }

  /** The result of `edge_dilation(g, num)`: generations `1..num`. */
  function Dilate(g: Grid, num: int): (r: Grid)
    requires Rect(g)
    ensures Rect(r) && SameShape(r, g)
    decreases num
  {
    if num <= 0 then g else Pass(Dilate(g, num - 1), num)
  }

  /** With no generation the result equals the input. */
  lemma DilateZero(g: Grid)
    requires Rect(g)
    ensures Dilate(g, 0) == g
  {
  }

  /** Dilation only fills zero pixels: a non-zero pixel keeps its value, and
      a pixel that changed was zero and now holds a value in `[255 - num, 254]`. */
  lemma {:induction false} DilateFillsZeros(g: Grid, num: int)
    requires Rect(g)
    ensures forall a, b | InGrid(g, a, b) && g[a][b] != 0 :: Dilate(g, num)[a][b] == g[a][b]
    ensures forall a, b | InGrid(g, a, b) && Dilate(g, num)[a][b] != g[a][b] ::
      g[a][b] == 0 && MaxPixel - num <= Dilate(g, num)[a][b] <= MaxPixel - 1
    decreases num
  {
    if num > 0 {
      DilateFillsZeros(g, num - 1);
    }
  }

  /** More generations never undo earlier ones: every non-zero pixel after
      `m` generations keeps its value after `n >= m` generations. */
  lemma {:induction false} DilateMonotone(g: Grid, m: int, n: int)
    requires Rect(g) && m <= n
    ensures forall a, b | InGrid(g, a, b) && Dilate(g, m)[a][b] != 0 :: Dilate(g, n)[a][b] == Dilate(g, m)[a][b]
    decreases n - m
  {
    if m < n {
      DilateMonotone(g, m, n - 1);
      if n > 0 {
        assert FillsZeros(Dilate(g, n - 1), Dilate(g, n), n);
      }
    }
  }

  /** The non-zero pixels of a grid. */
  ghost function NonZero(g: Grid): (s: set<Cell>)
    requires Rect(g)
    ensures forall c :: c in s <==> InGrid(g, c.0, c.1) && g[c.0][c.1] != 0
  {
    set a, b | 0 <= a < |g| && 0 <= b < Cols(g) && g[a][b] != 0 :: (a, b)
  }

  /** The number of non-zero pixels never decreases as `num` grows. */
  lemma DilateCountMonotone(g: Grid, m: int, n: int)
    requires Rect(g) && m <= n
    ensures |NonZero(Dilate(g, m))| <= |NonZero(Dilate(g, n))|
  {
    var small, large := NonZero(Dilate(g, m)), NonZero(Dilate(g, n));
    DilateMonotone(g, m, n);
    assert small <= large;
    assert large == small + (large - small);
  }

  /** The body of the `y` loop (EdgeData.py:223-231) on the matrix `a`. */
  method VisitCell(a: array2<int>, i: int, x: int, y: int)
    requires 0 <= x < a.Length0 && 0 <= y < a.Length1
    modifies a
    ensures Cells(a) == Visit(old(Cells(a)), i, x, y)
  {
    var w, h := a.Length0, a.Length1;
    var v := MaxPixel - i;
    ghost var g := Cells(a);
    if a[x, y] >= MaxPixel - i + 1 {
      assert Spreads(g, i, x, y);
      if x != 0 && a[x - 1, y] == 0 {
        assert Visit(g, i, x, y) == Update(g, x - 1, y, v);
        ItemSet(a, x - 1, y, v);
      } else if y != 0 && a[x, y - 1] == 0 {
        assert Visit(g, i, x, y) == Update(g, x, y - 1, v);
        ItemSet(a, x, y - 1, v);
      } else if x != w - 1 && a[x + 1, y] == 0 {
        assert Visit(g, i, x, y) == Update(g, x + 1, y, v);
        ItemSet(a, x + 1, y, v);
      } else if y != h - 1 && a[x, y + 1] == 0 {
        assert Visit(g, i, x, y) == Update(g, x, y + 1, v);
        ItemSet(a, x, y + 1, v);
      } else {
        assert Visit(g, i, x, y) == g;
      }
    } else {
      assert Visit(g, i, x, y) == g;
    }
  }

  /** The `y` loop of generation `i` over row `x`. */
  method DilateRow(a: array2<int>, i: int, x: int)
    requires 0 <= x < a.Length0
    modifies a
    ensures Cells(a) == RowPrefix(old(Cells(a)), i, x, a.Length1)
  {
    ghost var g := Cells(a);
    for y := 0 to a.Length1
      invariant Cells(a) == RowPrefix(g, i, x, y)
    {
      VisitCell(a, i, x, y);
    }
  }

  /** The `x`/`y` loops of generation `i`. */
  method DilatePass(a: array2<int>, i: int)
    modifies a
    ensures Cells(a) == Pass(old(Cells(a)), i)
  {
    ghost var g := Cells(a);
    for x := 0 to a.Length0
      invariant Cells(a) == PassPrefix(g, i, x)
    {
      DilateRow(a, i, x);
    }
  }

  /** `edge_dilation` (EdgeData.py:215-232): the input is a value, so the
      caller's grid is not modified. */
  method EdgeDilation(edges: Grid, num: int) returns (out: array2<int>)
    requires Rect(edges)
    ensures out.Length0 == |edges| && out.Length1 == Cols(edges)
    ensures Cells(out) == Dilate(edges, num)
  {
    out := ToMatrix(edges);
    GridEq(Cells(out), edges);
    if num >= 1 {
      for i := 1 to num + 1
        invariant Cells(out) == Dilate(edges, i - 1)
      {
        DilatePass(out, i);
      }
    }
  }
}
