/** Hysteresis (`hysteresis` and `hystConnect`, EdgeData.py:155-204): pixels
    of magnitude at least 180 are certain edges, and an edge spreads to every
    8-neighbour whose magnitude is above 100, through an explicit stack. */
module Hysteresis {
  import opened Grids

  const High := 180
  const Low := 100

  /** `d` lies in the 3x3 block centred on `c` (`c` itself included, as the
      `i`/`j` loops of `hystConnect` visit offset (0, 0) too). */
  predicate Adjacent8(c: Cell, d: Cell) {
    -1 <= d.0 - c.0 <= 1 && -1 <= d.1 - c.1 <= 1
  }

  /** `p` is a walk from `s` to `e` through in-grid 8-neighbours, each step
      landing on a pixel above `thresh`. */
  ghost predicate Chain(g: Grid, thresh: int, p: seq<Cell>, s: Cell, e: Cell)
    requires Rect(g)
  {
    && |p| > 0 && p[0] == s && p[|p| - 1] == e
    && (forall k | 0 <= k < |p| :: InGrid(g, p[k].0, p[k].1))
    && (forall k | 1 <= k < |p| :: Adjacent8(p[k - 1], p[k]) && InGrid(g, p[k].0, p[k].1) && g[p[k].0][p[k].1] > thresh)
  }

  /** A walk that starts at a certain edge pixel and continues through
      pixels above the low threshold. */
  ghost predicate HystPath(g: Grid, p: seq<Cell>)
    requires Rect(g)
  {
    |p| > 0 && InGrid(g, p[0].0, p[0].1) && g[p[0].0][p[0].1] >= High && Chain(g, Low, p, p[0], p[|p| - 1])
  }

  /** The pixels `hysteresis` marks as edges. */
  ghost predicate Linked(g: Grid, x: int, y: int)
    requires Rect(g)
  {
    exists p :: HystPath(g, p) && p[|p| - 1] == (x, y)
  }

  /** Every pixel at or above the high threshold is an edge. */
  lemma SeedLinked(g: Grid, x: int, y: int)
    requires Rect(g) && InGrid(g, x, y) && g[x][y] >= High
    ensures Linked(g, x, y)
  {
    assert HystPath(g, [(x, y)]);
  }

  /** Every edge pixel is above the low threshold. */
  lemma LinkedAboveLow(g: Grid, x: int, y: int)
    requires Rect(g) && Linked(g, x, y)
    ensures InGrid(g, x, y) && g[x][y] > Low
  {
    var p: seq<Cell> :| HystPath(g, p) && p[|p| - 1] == (x, y);
    assert InGrid(g, p[|p| - 1].0, p[|p| - 1].1);
  }

  /** Every in-grid 8-neighbour of `c` above `thresh` is in `marked`. */
  ghost predicate Closed(g: Grid, thresh: int, marked: set<Cell>, c: Cell)
    requires Rect(g)
  {
    forall d: Cell | Adjacent8(c, d) && InGrid(g, d.0, d.1) && g[d.0][d.1] > thresh :: d in marked
  }

  /** `edges` holds 255 exactly on the cells of `marked` and 0 elsewhere. */
  ghost predicate Encodes(edges: array2<int>, g: Grid, marked: set<Cell>)
    requires Rect(g)
    reads edges
  {
    && edges.Length0 == |g| && edges.Length1 == Cols(g)
    && (forall c | c in marked :: InGrid(g, c.0, c.1))
    && forall a, b | InGrid(g, a, b) :: edges[a, b] == if (a, b) in marked then MaxPixel else 0
  }

  /** Marking more cells keeps a closed cell closed. */
  lemma ClosedGrow(g: Grid, thresh: int, marked: set<Cell>, more: set<Cell>, c: Cell)
    requires Rect(g) && Closed(g, thresh, marked, c) && marked <= more
    ensures Closed(g, thresh, more, c)
  {
  }

  /** After popping `p` from `popped` (leaving `stack`), closing `p` and
      pushing the newly marked cells, every marked cell is on the stack or
      closed. */
  lemma PopKeepsClosure(g: Grid, thresh: int, before: set<Cell>, marked: set<Cell>,
                        popped: seq<Cell>, stack: seq<Cell>, p: Cell, pushed: seq<Cell>)
    requires Rect(g) && before <= marked
    requires |popped| > 0 && p == popped[|popped| - 1] && stack == popped[..|popped| - 1]
    requires forall c | c in before :: c in popped || Closed(g, thresh, before, c)
    requires Closed(g, thresh, marked, p)
    requires forall c | c in marked && c !in before :: c in pushed
    ensures forall c | c in marked :: c in stack + pushed || Closed(g, thresh, marked, c)
  {
    PoppedCells(popped, stack, p);
    forall c | c in marked
      ensures c in stack + pushed || Closed(g, thresh, marked, c)
    {
      if c in before && c != p && c !in stack {
        ClosedGrow(g, thresh, before, marked, c);
      }
    }
  }

  /** A cell of the stack before a pop is the popped cell or still on the
      stack. */
  lemma PoppedCells(popped: seq<Cell>, stack: seq<Cell>, p: Cell)
    requires |popped| > 0 && p == popped[|popped| - 1] && stack == popped[..|popped| - 1]
    ensures forall c | c in popped :: c in stack || c == p
  {
    forall c | c in popped
      ensures c in stack || c == p
    {
      var k :| 0 <= k < |popped| && popped[k] == c;
      if k < |stack| {
        assert stack[k] == c;
      }
    }
  }

  /** Each pass of the stack loop either marks a new cell or shortens the
      stack. */
  lemma PushShrinks(all: set<Cell>, before: set<Cell>, marked: set<Cell>, pushed: seq<Cell>)
    requires before <= marked <= all
    requires forall c | c in pushed :: c in marked && c !in before
    requires forall c | c in marked && c !in before :: c in pushed
    ensures |all - marked| < |all - before| || (|all - marked| == |all - before| && |pushed| == 0)
  {
    if |pushed| > 0 {
      assert pushed[0] in marked - before;
    } else {
      assert marked == before;
    }
    assert all - before == (all - marked) + (marked - before);
  }

  /** A set that contains every certain edge pixel and is closed under the
      growth step contains every linked pixel. */
  lemma {:induction false} ClosedContainsPath(g: Grid, marked: set<Cell>, p: seq<Cell>, n: nat)
    requires Rect(g) && HystPath(g, p) && n < |p|
    requires forall a, b | InGrid(g, a, b) && g[a][b] >= High :: (a, b) in marked
    requires forall c | c in marked :: Closed(g, Low, marked, c)
    ensures p[n] in marked
  {
    if n > 0 {
      ClosedContainsPath(g, marked, p, n - 1);
      assert Adjacent8(p[n - 1], p[n]) && InGrid(g, p[n].0, p[n].1);
    }
  }

  /** A walk to `p` followed by a step to its neighbour `c` above
      `thresh` is a walk to `c`. */
  lemma ChainExtend(g: Grid, thresh: int, q: seq<Cell>, s: Cell, p: Cell, c: Cell)
    requires Rect(g) && Chain(g, thresh, q, s, p)
    requires Adjacent8(p, c) && InGrid(g, c.0, c.1) && g[c.0][c.1] > thresh
    ensures Chain(g, thresh, q + [c], s, c)
  {
    var r := q + [c];
    assert forall k | 0 <= k < |q| :: r[k] == q[k];
  }

  /** Some walk leads from `s` to `c`. */
  ghost predicate Reaches(g: Grid, thresh: int, s: Cell, c: Cell)
    requires Rect(g)
  {
    exists q :: Chain(g, thresh, q, s, c)
  }

  /** A cell reached from a certain edge pixel through pixels above the low
      threshold is linked. */
  lemma ReachesLinked(g: Grid, s: Cell, c: Cell)
    requires Rect(g) && InGrid(g, s.0, s.1) && g[s.0][s.1] >= High && Reaches(g, Low, s, c)
    ensures Linked(g, c.0, c.1)
  {
    var q: seq<Cell> :| Chain(g, Low, q, s, c);
    assert HystPath(g, q);
  }

  /** Every neighbour above `thresh` of a cell reached from `s` is reached
      from `s`. */
  lemma ReachNeighbours(g: Grid, thresh: int, s: Cell, p: Cell, added: set<Cell>)
    requires Rect(g) && Reaches(g, thresh, s, p)
    requires forall c | c in added :: Adjacent8(p, c) && InGrid(g, c.0, c.1) && g[c.0][c.1] > thresh
    ensures forall c | c in added :: Reaches(g, thresh, s, c)
  {
    var q: seq<Cell> :| Chain(g, thresh, q, s, p);
    forall c | c in added
      ensures Reaches(g, thresh, s, c)
    {
      ChainExtend(g, thresh, q, s, p, c);
    }
  }

  /** A set that contains every certain edge pixel and is closed under the
      growth step contains every linked pixel. */
  lemma LinkedMarked(g: Grid, marked: set<Cell>)
    requires Rect(g)
    requires forall a, b | InGrid(g, a, b) && g[a][b] >= High :: (a, b) in marked
    requires forall c | c in marked :: Closed(g, Low, marked, c)
    ensures forall a, b | InGrid(g, a, b) && Linked(g, a, b) :: (a, b) in marked
  {
    forall a, b | InGrid(g, a, b) && Linked(g, a, b)
      ensures (a, b) in marked
    {
      var p: seq<Cell> :| HystPath(g, p) && p[|p| - 1] == (a, b);
      ClosedContainsPath(g, marked, p, |p| - 1);
    }
  }

  /** Certain edge pixels are linked, and linked pixels are above the low
      threshold. */
  lemma LinkedBounds(g: Grid)
    requires Rect(g)
    ensures forall a, b | InGrid(g, a, b) && g[a][b] >= High :: Linked(g, a, b)
    ensures forall a, b | InGrid(g, a, b) && Linked(g, a, b) :: g[a][b] > Low
  {
    forall a, b | InGrid(g, a, b) && g[a][b] >= High
      ensures Linked(g, a, b)
    {
      SeedLinked(g, a, b);
    }
    forall a, b | InGrid(g, a, b) && Linked(g, a, b)
      ensures g[a][b] > Low
    {
      LinkedAboveLow(g, a, b);
    }
  }

  /** All cells of the grid. */
  ghost function AllCells(g: Grid): (s: set<Cell>)
    ensures forall c: Cell :: c in s <==> InGrid(g, c.0, c.1)
  {
    set a, b | 0 <= a < |g| && 0 <= b < Cols(g) :: (a, b)
  }

  /** The body of the `j` loop (EdgeData.py:201-204) for the in-grid cell
      `c`: when it is above `thresh` and not yet marked, it is marked and
      pushed. */
  method MarkCell(c: Cell, thresh: int, edges: array2<int>, mags: Grid, pushed0: seq<Cell>, ghost marked0: set<Cell>)
    returns (pushed: seq<Cell>, ghost marked: set<Cell>)
    requires Rect(mags) && Encodes(edges, mags, marked0) && InGrid(mags, c.0, c.1)
    modifies edges
    ensures Encodes(edges, mags, marked)
    ensures marked == if mags[c.0][c.1] > thresh then marked0 + {c} else marked0
    ensures pushed == if mags[c.0][c.1] > thresh && c !in marked0 then pushed0 + [c] else pushed0
  {
    pushed, marked := pushed0, marked0;
    if mags[c.0][c.1] > thresh && edges[c.0, c.1] != MaxPixel {
      edges[c.0, c.1] := MaxPixel;
      pushed := pushed + [c];
      marked := marked + {c};
    }
  }

  /** The `j` loop of EdgeData.py:193-204 for row `x` of the 3x3 block
      around the popped cell `p`: every in-grid cell of that row above
      `thresh` ends up marked; `pushed` lists the cells newly marked, in the
      order they are appended to the stack. */
  method MarkRow(p: Cell, x: int, thresh: int, edges: array2<int>, mags: Grid, ghost marked0: set<Cell>)
    returns (pushed: seq<Cell>, ghost marked: set<Cell>)
    requires Rect(mags) && Encodes(edges, mags, marked0) && InGrid(mags, p.0, p.1)
    requires 0 <= x < |mags| && -1 <= x - p.0 <= 1
    modifies edges
    ensures Encodes(edges, mags, marked) && marked0 <= marked
    ensures forall c: Cell | InGrid(mags, c.0, c.1) && c.0 == x && p.1 - 1 <= c.1 <= p.1 + 1 && mags[c.0][c.1] > thresh ::
      c in marked
    ensures forall c | c in marked && c !in marked0 :: Adjacent8(p, c) && mags[c.0][c.1] > thresh
    ensures forall c | c in pushed :: c in marked && c !in marked0
    ensures forall c | c in marked && c !in marked0 :: c in pushed
  {
    var h := Cols(mags);
    var y := p.1;
    pushed, marked := [], marked0;
    for j := -1 to 2
      invariant Encodes(edges, mags, marked) && marked0 <= marked
      invariant forall c: Cell | InGrid(mags, c.0, c.1) && c.0 == x && y - 1 <= c.1 < y + j && mags[c.0][c.1] > thresh ::
        c in marked
      invariant forall c | c in marked && c !in marked0 :: Adjacent8(p, c) && mags[c.0][c.1] > thresh
      invariant forall c | c in pushed :: c in marked && c !in marked0
      invariant forall c | c in marked && c !in marked0 :: c in pushed
    {
      if (y == 0 && j == -1) || (y == h - 1 && j == 1) {
        continue;
      }
      pushed, marked := MarkCell((x, y + j), thresh, edges, mags, pushed, marked);
    }
  }

  /** The `i`/`j` loops of EdgeData.py:188-204 for the popped cell `p`: every
      in-grid neighbour above `thresh` that is not yet marked is marked, and
      `pushed` lists those cells in the order they are appended to the stack. */
  method MarkNeighbours(p: Cell, thresh: int, edges: array2<int>, mags: Grid, ghost marked0: set<Cell>)
    returns (pushed: seq<Cell>, ghost marked: set<Cell>)
    requires Rect(mags) && Encodes(edges, mags, marked0) && InGrid(mags, p.0, p.1)
    modifies edges
    ensures Encodes(edges, mags, marked) && marked0 <= marked
    ensures Closed(mags, thresh, marked, p)
    ensures forall c | c in marked && c !in marked0 :: Adjacent8(p, c) && mags[c.0][c.1] > thresh
    ensures forall c | c in pushed :: c in marked && c !in marked0
    ensures forall c | c in marked && c !in marked0 :: c in pushed
  {
    var w := |mags|;
    var x := p.0;
    pushed, marked := [], marked0;
    for i := -1 to 2
      invariant Encodes(edges, mags, marked) && marked0 <= marked
      invariant forall c: Cell | InGrid(mags, c.0, c.1) && x - 1 <= c.0 < x + i && p.1 - 1 <= c.1 <= p.1 + 1 &&
        mags[c.0][c.1] > thresh :: c in marked
      invariant forall c | c in marked && c !in marked0 :: Adjacent8(p, c) && mags[c.0][c.1] > thresh
      invariant forall c | c in pushed :: c in marked && c !in marked0
      invariant forall c | c in marked && c !in marked0 :: c in pushed
    {
      if (x == 0 && i == -1) || (x == w - 1 && i == 1) {
        continue;
      }
      var rowPushed;
      ghost var before := marked;
      rowPushed, marked := MarkRow(p, x + i, thresh, edges, mags, before);
      pushed := pushed + rowPushed;
    }
  }

  /** `hystConnect` (EdgeData.py:177-204) from the freshly marked cell
      `(x, y)`: afterwards every marked cell is closed, and every newly
      marked cell is reached from `(x, y)`. */
  method HystConnect(x: int, y: int, thresh: int, edges: array2<int>, mags: Grid, ghost marked0: set<Cell>)
    returns (ghost marked: set<Cell>)
    requires Rect(mags) && InGrid(mags, x, y) && Encodes(edges, mags, marked0) && (x, y) in marked0
    requires forall c | c in marked0 && c != (x, y) :: Closed(mags, thresh, marked0, c)
    modifies edges
    ensures Encodes(edges, mags, marked) && marked0 <= marked
    ensures forall c | c in marked :: Closed(mags, thresh, marked, c)
    ensures forall c | c in marked && c !in marked0 :: Reaches(mags, thresh, (x, y), c)
  {
    var stack := [(x, y)];
    marked := marked0;
    ghost var all := AllCells(mags);
    assert Chain(mags, thresh, [(x, y)], (x, y), (x, y));
    while |stack| > 0
      invariant Encodes(edges, mags, marked) && marked0 <= marked
      invariant forall c | c in stack :: c in marked && Reaches(mags, thresh, (x, y), c)
      invariant forall c | c in marked :: c in stack || Closed(mags, thresh, marked, c)
      invariant forall c | c in marked && c !in marked0 :: Reaches(mags, thresh, (x, y), c)
      invariant marked <= all
      decreases |all - marked|, |stack|
    {
      var p := stack[|stack| - 1];
      ghost var popped := stack;
      stack := stack[..|stack| - 1];
      ghost var before := marked;
      var pushed;
      pushed, marked := MarkNeighbours(p, thresh, edges, mags, before);
      ReachNeighbours(mags, thresh, (x, y), p, marked - before);
      PopKeepsClosure(mags, thresh, before, marked, popped, stack, p, pushed);
      PushShrinks(all, before, marked, pushed);
      stack := stack + pushed;
    }
  }

  /** `hysteresis` (EdgeData.py:155-169) on the magnitude grid `mags`:
      the result is 255 exactly on the linked pixels and 0 elsewhere. */
  method Hysteresis(mags: Grid) returns (edges: array2<int>)
    requires Rect(mags)
    ensures edges.Length0 == |mags| && edges.Length1 == Cols(mags)
    ensures forall a, b | InGrid(mags, a, b) :: edges[a, b] == if Linked(mags, a, b) then MaxPixel else 0
    ensures forall a, b | InGrid(mags, a, b) && mags[a][b] >= High :: edges[a, b] == MaxPixel
    ensures forall a, b | InGrid(mags, a, b) && edges[a, b] == MaxPixel :: mags[a][b] > Low
  {
    var w, h := |mags|, Cols(mags);
    edges := new int[w, h]((_, _) => 0);
    ghost var marked: set<Cell> := {};
    for x := 0 to w
      invariant Encodes(edges, mags, marked)
      invariant forall c | c in marked :: Closed(mags, Low, marked, c)
      invariant forall c | c in marked :: Linked(mags, c.0, c.1)
      invariant forall a, b | InGrid(mags, a, b) && a < x && mags[a][b] >= High :: (a, b) in marked
    {
      for y := 0 to h
        invariant Encodes(edges, mags, marked)
        invariant forall c | c in marked :: Closed(mags, Low, marked, c)
        invariant forall c | c in marked :: Linked(mags, c.0, c.1)
        invariant forall a, b | InGrid(mags, a, b) && RasterBefore(a, b, x, y) && mags[a][b] >= High :: (a, b) in marked
      {
        if edges[x, y] != MaxPixel && mags[x][y] >= High {
          edges[x, y] := MaxPixel;
          ghost var before := marked + {(x, y)};
          SeedLinked(mags, x, y);
          marked := HystConnect(x, y, Low, edges, mags, before);
          forall c | c in marked && c !in before
            ensures Linked(mags, c.0, c.1)
          {
            ReachesLinked(mags, (x, y), c);
          }
        }
      }
    }
    LinkedMarked(mags, marked);
    LinkedBounds(mags);
  }
}
