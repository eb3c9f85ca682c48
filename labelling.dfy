/** Connected-component labelling as the plate code uses it:
    `ndimage.label` with its default structuring element (4-connectivity) and
    `ndimage.find_objects` on a one-label mask. The library code is not part
    of this model; `IsLabelling` states what its result satisfies and the
    plate code's callers receive a labelling that satisfies it. */
module Labelling {
  import opened Grids

  /** A path of non-zero pixels of `g`, each a 4-neighbour of the previous. */
  ghost predicate Path4(g: Grid, p: seq<Cell>)
    requires Rect(g)
  {
    && |p| > 0
    && (forall i | 0 <= i < |p| :: InGrid(g, p[i].0, p[i].1) && g[p[i].0][p[i].1] != 0)
    && (forall i | 0 < i < |p| :: Adjacent4(p[i - 1].0, p[i - 1].1, p[i].0, p[i].1))
  }

  /** Non-zero pixels `s` and `e` lie in the same 4-connected component. */
  ghost predicate Connected4(g: Grid, s: Cell, e: Cell)
    requires Rect(g)
  {
    exists p :: Path4(g, p) && p[0] == s && p[|p| - 1] == e
  }

  /** Some pixel carries label `l`. */
  ghost predicate Present(lab: Grid, l: int)
    requires Rect(lab)
  {
    exists a, b | InGrid(lab, a, b) :: lab[a][b] == l
  }

  /** Every label `1..k` is used. */
  ghost predicate AllPresent(lab: Grid, k: int) {
    Rect(lab) && forall l | 1 <= l <= k :: Present(lab, l)
  }

  /** Some pixel before `(a, b)` in row-major order carries label `l`. */
  ghost predicate LabelledBefore(lab: Grid, l: int, a: int, b: int)
    requires Rect(lab)
  {
    exists c, d | InGrid(lab, c, d) && RasterBefore(c, d, a, b) :: lab[c][d] == l
  }

  /** `(lab, k)` is what `ndimage.label(g)` returns: background pixels get 0,
      the others get labels `1..k`, two of them share a label exactly when
      they are 4-connected, every label is used, and labels are numbered in
      row-major order of first encounter: every smaller label already occurs
      before any pixel of a larger one. */
  ghost predicate IsLabelling(g: Grid, lab: Grid, k: nat) {
    && Rect(g) && Rect(lab) && SameShape(g, lab)
    && (forall a, b | InGrid(g, a, b) :: 0 <= lab[a][b] <= k && (lab[a][b] == 0 <==> g[a][b] == 0))
    && (forall a, b, c, d {:trigger Connected4(g, (a, b), (c, d))}
          | InGrid(g, a, b) && InGrid(g, c, d) && lab[a][b] != 0 && lab[c][d] != 0 ::
          lab[a][b] == lab[c][d] <==> Connected4(g, (a, b), (c, d)))
    && AllPresent(lab, k)
    && (forall l, a, b {:trigger LabelledBefore(lab, l, a, b)}
          | 1 <= l && InGrid(lab, a, b) && l < lab[a][b] :: LabelledBefore(lab, l, a, b))
  }

  /** The first foreground pixel in row-major order carries label 1. */
  lemma FirstPixelLabelledOne(g: Grid, lab: Grid, k: nat, a: int, b: int)
    requires IsLabelling(g, lab, k) && InGrid(g, a, b) && g[a][b] != 0
    requires forall c, d | InGrid(g, c, d) && RasterBefore(c, d, a, b) :: g[c][d] == 0
    ensures lab[a][b] == 1
  {
    if lab[a][b] != 1 {
      EarlierLabel(g, lab, k, 1, a, b);
      assert false;
    }
  }

  /** A label below that of `(a, b)` occurs at an earlier pixel. */
  lemma EarlierLabel(g: Grid, lab: Grid, k: nat, l: int, a: int, b: int)
    requires IsLabelling(g, lab, k) && InGrid(g, a, b) && 1 <= l < lab[a][b]
    ensures exists c, d | InGrid(g, c, d) && RasterBefore(c, d, a, b) :: lab[c][d] == l && g[c][d] != 0
  {
    assert LabelledBefore(lab, l, a, b);
  }

  /** Pixels that share a label in one labelling share a label in another. */
  lemma SameComponent(g: Grid, lab1: Grid, k1: nat, lab2: Grid, k2: nat, a: int, b: int, c: int, d: int)
    requires IsLabelling(g, lab1, k1) && IsLabelling(g, lab2, k2) && InGrid(g, a, b) && InGrid(g, c, d)
    requires lab1[a][b] != 0 && lab1[a][b] == lab1[c][d]
    ensures lab2[a][b] == lab2[c][d]
  {
    assert Connected4(g, (a, b), (c, d));
  }

  /** Two labellings of the same image agree at every pixel, by induction in
      row-major order. */
  lemma {:induction false} LabelsAgree(g: Grid, lab1: Grid, k1: nat, lab2: Grid, k2: nat, a: int, b: int)
    requires IsLabelling(g, lab1, k1) && IsLabelling(g, lab2, k2) && InGrid(g, a, b)
    ensures lab1[a][b] == lab2[a][b]
    decreases a, b, 1
  {
    if g[a][b] != 0 {
      LabelNotBelow(g, lab1, k1, lab2, k2, a, b);
      LabelNotBelow(g, lab2, k2, lab1, k1, a, b);
    }
  }

  /** When the earlier pixels agree, a foreground pixel's label in `lab1` is
      not below its label in `lab2`: a smaller label `l` in `lab1` already
      occurs earlier in `lab2`, hence earlier in `lab1` too, at a pixel that
      `lab1` then connects to `(a, b)`, so `lab2` gives both the same label. */
  lemma {:induction false} LabelNotBelow(g: Grid, lab1: Grid, k1: nat, lab2: Grid, k2: nat, a: int, b: int)
    requires IsLabelling(g, lab1, k1) && IsLabelling(g, lab2, k2) && InGrid(g, a, b) && g[a][b] != 0
    ensures lab1[a][b] >= lab2[a][b]
    decreases a, b, 0
  {
    var l := lab1[a][b];
    if l < lab2[a][b] {
      EarlierLabel(g, lab2, k2, l, a, b);
      var c, d :| InGrid(g, c, d) && RasterBefore(c, d, a, b) && lab2[c][d] == l && g[c][d] != 0;
      LabelsAgree(g, lab1, k1, lab2, k2, c, d);
      SameComponent(g, lab1, k1, lab2, k2, a, b, c, d);
      assert false;
    }
  }

  /** `ndimage.label(g)` is determined by `g`: any two labellings of it are
      equal and have the same number of labels. */
  lemma LabellingUnique(g: Grid, lab1: Grid, k1: nat, lab2: Grid, k2: nat)
    requires IsLabelling(g, lab1, k1) && IsLabelling(g, lab2, k2)
    ensures lab1 == lab2 && k1 == k2
  {
    forall a, b | InGrid(lab1, a, b)
      ensures lab1[a][b] == lab2[a][b]
    {
      LabelsAgree(g, lab1, k1, lab2, k2, a, b);
    }
    GridEq(lab1, lab2);
    LabelCountAtMost(g, lab1, k1, lab2, k2);
    LabelCountAtMost(g, lab2, k2, lab1, k1);
  }

  /** Equal labellings of `g` cannot use more labels in one than in the
      other: the largest label of the first is used, and bounded by the
      second's count. */
  lemma LabelCountAtMost(g: Grid, lab1: Grid, k1: nat, lab2: Grid, k2: nat)
    requires IsLabelling(g, lab1, k1) && IsLabelling(g, lab2, k2) && lab1 == lab2
    ensures k1 <= k2
  {
    if k1 > 0 {
      assert Present(lab1, k1);
    }
  }

  /** A slice pair `rowStart:rowStop, colStart:colStop`, as `find_objects`
      returns it. */
  datatype Box = Box(rowStart: int, rowStop: int, colStart: int, colStop: int)

  function Height(b: Box): int {
    b.rowStop - b.rowStart
  }

  function Width(b: Box): int {
    b.colStop - b.colStart
  }

  predicate Inside(b: Box, x: int, y: int) {
    b.rowStart <= x < b.rowStop && b.colStart <= y < b.colStop
  }

  /** Some pixel of column `y` carries label `l`. */
  predicate InColumn(lab: Grid, l: int, y: int)
    requires Rect(lab) && 0 <= y < Cols(lab)
  {
    exists a | 0 <= a < |lab| :: lab[a][y] == l
  }

  /** The first row at or after `x` that contains `l`, or `|lab|`. */
  function FirstRow(lab: Grid, l: int, x: nat): (r: int)
    requires x <= |lab|
    ensures x <= r <= |lab|
    decreases |lab| - x
  {
    if x == |lab| then x else if l in lab[x] then x else FirstRow(lab, l, x + 1)
  }

  /** `FirstRow` stops at a row holding `l` and skips only rows without it. */
  lemma {:induction false} FirstRowFinds(lab: Grid, l: int, x: nat)
    requires x <= |lab|
    ensures var r := FirstRow(lab, l, x);
      (r < |lab| ==> l in lab[r]) && forall a | x <= a < r :: l !in lab[a]
    decreases |lab| - x
  {
    if x < |lab| && l !in lab[x] {
      FirstRowFinds(lab, l, x + 1);
    }
  }

  /** The last row before `x` that contains `l`, or -1. */
  function LastRow(lab: Grid, l: int, x: nat): (r: int)
    requires x <= |lab|
    ensures -1 <= r < x
  {
    if x == 0 then -1 else if l in lab[x - 1] then x - 1 else LastRow(lab, l, x - 1)
  }

  /** `LastRow` stops at a row holding `l` and skips only rows without it. */
  lemma {:induction false} LastRowFinds(lab: Grid, l: int, x: nat)
    requires x <= |lab|
    ensures var r := LastRow(lab, l, x);
      (r >= 0 ==> l in lab[r]) && forall a | r < a < x :: l !in lab[a]
  {
    if x > 0 && l !in lab[x - 1] {
      LastRowFinds(lab, l, x - 1);
    }
  }

  /** The first column at or after `y` that contains `l`, or `Cols(lab)`. */
  function FirstCol(lab: Grid, l: int, y: nat): (r: int)
    requires Rect(lab) && y <= Cols(lab)
    ensures y <= r <= Cols(lab)
    decreases Cols(lab) - y
  {
    if y == Cols(lab) then y else if InColumn(lab, l, y) then y else FirstCol(lab, l, y + 1)
  }

  /** `FirstCol` stops at a column holding `l` and skips only columns
      without it. */
  lemma {:induction false} FirstColFinds(lab: Grid, l: int, y: nat)
    requires Rect(lab) && y <= Cols(lab)
    ensures var r := FirstCol(lab, l, y);
      (r < Cols(lab) ==> InColumn(lab, l, r)) && forall b | y <= b < r :: !InColumn(lab, l, b)
    decreases Cols(lab) - y
  {
    if y < Cols(lab) && !InColumn(lab, l, y) {
      FirstColFinds(lab, l, y + 1);
    }
  }

  /** The last column before `y` that contains `l`, or -1. */
  function LastCol(lab: Grid, l: int, y: nat): (r: int)
    requires Rect(lab) && y <= Cols(lab)
    ensures -1 <= r < y
  {
    if y == 0 then -1 else if InColumn(lab, l, y - 1) then y - 1 else LastCol(lab, l, y - 1)
  }

  /** `LastCol` stops at a column holding `l` and skips only columns
      without it. */
  lemma {:induction false} LastColFinds(lab: Grid, l: int, y: nat)
    requires Rect(lab) && y <= Cols(lab)
    ensures var r := LastCol(lab, l, y);
      (r >= 0 ==> InColumn(lab, l, r)) && forall b | r < b < y :: !InColumn(lab, l, b)
  {
    if y > 0 && !InColumn(lab, l, y - 1) {
      LastColFinds(lab, l, y - 1);
    }
  }

  /** `find_objects(lab == l)[0]`: the smallest box holding every pixel
      labelled `l`. It lies in the grid and is at least one pixel high and
      wide; `TightBoxIsTight` shows it is the smallest such box. */
  function TightBox(lab: Grid, l: int): (r: Box)
    requires Rect(lab) && Present(lab, l)
    ensures 0 <= r.rowStart < r.rowStop <= |lab| && 0 <= r.colStart < r.colStop <= Cols(lab)
  {
    BoxBounds(lab, l);
    Box(FirstRow(lab, l, 0), LastRow(lab, l, |lab|) + 1, FirstCol(lab, l, 0), LastCol(lab, l, Cols(lab)) + 1)
  }

  /** The four searches find a row and a column holding `l` whenever some
      pixel holds it. */
  lemma BoxBounds(lab: Grid, l: int)
    requires Rect(lab) && Present(lab, l)
    ensures 0 <= FirstRow(lab, l, 0) <= LastRow(lab, l, |lab|) < |lab|
    ensures 0 <= FirstCol(lab, l, 0) <= LastCol(lab, l, Cols(lab)) < Cols(lab)
  {
    var a, b :| InGrid(lab, a, b) && lab[a][b] == l;
    assert l in lab[a] && InColumn(lab, l, b);
    FirstRowFinds(lab, l, 0);
    LastRowFinds(lab, l, |lab|);
    FirstColFinds(lab, l, 0);
    LastColFinds(lab, l, Cols(lab));
  }

  /** The box holds every pixel labelled `l`, and each of its four sides
      touches such a pixel, so no smaller box holds them all. */
  lemma TightBoxIsTight(lab: Grid, l: int)
    requires Rect(lab) && Present(lab, l)
    ensures var r := TightBox(lab, l);
      && (forall a, b | InGrid(lab, a, b) && lab[a][b] == l :: Inside(r, a, b))
      && l in lab[r.rowStart] && l in lab[r.rowStop - 1]
      && InColumn(lab, l, r.colStart) && InColumn(lab, l, r.colStop - 1)
  {
    BoxBounds(lab, l);
    FirstRowFinds(lab, l, 0);
    LastRowFinds(lab, l, |lab|);
    FirstColFinds(lab, l, 0);
    LastColFinds(lab, l, Cols(lab));
    forall a, b | InGrid(lab, a, b) && lab[a][b] == l
      ensures Inside(TightBox(lab, l), a, b)
    {
      assert l in lab[a] && InColumn(lab, l, b);
    }
  }
}
