/** Horizontal segmentation of a plate into character chunks (`segment`,
    PlateTools.py:98-124). A histogram counts the bright pixels of every
    column; a left-to-right scan opens a run at a column with more than four
    bright pixels and closes it at the first later column with at most four
    once the run is wider than `minWidth`. */
module Segmentation {
  import opened Grids

  /** A column with at most this many bright pixels is a gap. */
  const EmptyThresh := 4

  /** A pixel brighter than 95% of the largest pixel value. */
  predicate Bright(v: int) {
    v as real > MaxPixel as real * 0.95
  }

  /** On integer pixels, bright means at least 243. */
  lemma BrightFrom243(v: int)
    ensures Bright(v) <==> v >= 243
  {
  }

  /** The number of bright pixels among the first `n` rows of column `x`. */
  function ColumnCount(img: Grid, x: int, n: nat): (r: nat)
    requires Rect(img) && 0 <= x < Cols(img) && n <= |img|
    ensures r <= n
  {
    if n == 0 then 0 else ColumnCount(img, x, n - 1) + if Bright(img[n - 1][x]) then 1 else 0
  }

  /** The bright-pixel count of every column (`bar`). */
  function Histogram(img: Grid): (r: seq<int>)
    requires Rect(img)
    ensures |r| == Cols(img) && forall x | 0 <= x < |r| :: r[x] == ColumnCount(img, x, |img|)
  {
    seq(Cols(img), x requires 0 <= x < Cols(img) => ColumnCount(img, x, |img|))
  }

  /** A column holds more than `EmptyThresh` bright pixels. */
  predicate Full(count: int) {
    count > EmptyThresh
  }

  /** The scan's state: the column the open run began at (or -1) and the
      chunks emitted so far, each as `(begin, end)`. */
  datatype Scan = Scan(begin: int, widths: seq<(int, int)>)

  /** One step of the scan at column `z` with count `count`
      (PlateTools.py:118-122). */
  function Step(st: Scan, z: int, count: int, minWidth: real): (r: Scan)
    ensures r.widths == st.widths || (r.widths == st.widths + [(st.begin, z)] && r.begin == -1)
    ensures r.begin == st.begin || r.begin == -1 || (st.begin == -1 && r.begin == z)
    // only an open run is emitted, and an open run is never closed without being emitted
    ensures r.widths != st.widths ==> st.begin != -1
    ensures st.begin != -1 && r.begin == -1 ==> r.widths == st.widths + [(st.begin, z)]
    // a run opens only at a full column, and is emitted only at a gap column once wider than `minWidth`
    ensures st.begin == -1 && r.begin != -1 ==> Full(count)
    ensures r.widths != st.widths ==> !Full(count) && (z - st.begin) as real > minWidth
  {
    if !Full(count) && st.begin != -1 && (z - st.begin) as real > minWidth then Scan(-1, st.widths + [(st.begin, z)])
    else if Full(count) && st.begin == -1 then Scan(z, st.widths)
    else st
  }

  /** The state after scanning columns `0..n-1`. */
  function ScanUpTo(bar: seq<int>, minWidth: real, n: nat): Scan
    requires n <= |bar|
  {
    if n == 0 then Scan(-1, []) else Step(ScanUpTo(bar, minWidth, n - 1), n - 1, bar[n - 1], minWidth)
  }

  /** The chunks `segment` returns for histogram `bar`. */
  function Segments(bar: seq<int>, minWidth: real): seq<(int, int)> {
    ScanUpTo(bar, minWidth, |bar|).widths
  }

  /** What holds of the scan after `n` columns: an open run begins at a full
      column after every emitted chunk; each chunk starts at a full column,
      ends at a gap column, is wider than `minWidth`, and lies after the
      chunk before it. */
  ghost predicate ScanInv(bar: seq<int>, minWidth: real, n: nat, st: Scan)
    requires n <= |bar|
  {
    var w := st.widths;
    && (st.begin == -1 || (0 <= st.begin < n && Full(bar[st.begin])))
    && (forall i | 0 <= i < |w| ::
          0 <= w[i].0 < w[i].1 < n && (w[i].1 - w[i].0) as real > minWidth && Full(bar[w[i].0]) && !Full(bar[w[i].1]))
    && (forall i, j | 0 <= i < j < |w| :: w[i].1 < w[j].0)
    && (st.begin != -1 ==> forall i | 0 <= i < |w| :: w[i].1 < st.begin)
  }

  /** The scan keeps `ScanInv` column after column. */
  lemma {:induction false} ScanUpToInv(bar: seq<int>, minWidth: real, n: nat)
    requires n <= |bar|
    ensures ScanInv(bar, minWidth, n, ScanUpTo(bar, minWidth, n))
  {
    if n > 0 {
      ScanUpToInv(bar, minWidth, n - 1);
      var st := ScanUpTo(bar, minWidth, n - 1);
      var z := n - 1;
      if !Full(bar[z]) && st.begin != -1 && (z - st.begin) as real > minWidth {
        var w := st.widths + [(st.begin, z)];
        forall i, j | 0 <= i < j < |w| ensures w[i].1 < w[j].0 {
          if j == |w| - 1 {
            assert w[i] == st.widths[i];
          }
        }
      }
    }
  }

  /** Every chunk of `segment` starts at a full column, ends at a gap column
      and is wider than `minWidth`; chunks come left to right without
      overlapping. */
  lemma SegmentsWellFormed(bar: seq<int>, minWidth: real)
    ensures var w := Segments(bar, minWidth);
      && (forall i | 0 <= i < |w| ::
            0 <= w[i].0 < w[i].1 < |bar| && (w[i].1 - w[i].0) as real > minWidth && Full(bar[w[i].0]) && !Full(bar[w[i].1]))
      && (forall i, j | 0 <= i < j < |w| :: w[i].1 < w[j].0)
  {
    ScanUpToInv(bar, minWidth, |bar|);
  }

  /** A gap column does not close a run that is not yet wider than
      `minWidth`. */
  lemma NarrowGapKeepsRun(bar: seq<int>, minWidth: real, n: nat)
    requires n < |bar| && !Full(bar[n])
    requires var st := ScanUpTo(bar, minWidth, n); st.begin != -1 && (n - st.begin) as real <= minWidth
    ensures ScanUpTo(bar, minWidth, n + 1) == ScanUpTo(bar, minWidth, n)
  {
  }

  /** A gap column closes a run wider than `minWidth` and emits it
      (PlateTools.py:118-120). */
  lemma WideGapClosesRun(bar: seq<int>, minWidth: real, n: nat)
    requires n < |bar| && !Full(bar[n])
    requires var st := ScanUpTo(bar, minWidth, n); st.begin != -1 && (n - st.begin) as real > minWidth
    ensures var st := ScanUpTo(bar, minWidth, n);
      ScanUpTo(bar, minWidth, n + 1) == Scan(-1, st.widths + [(st.begin, n)])
  {
  }

  /** A full column opens a run when none is open (PlateTools.py:121-122). */
  lemma FullOpensRun(bar: seq<int>, minWidth: real, n: nat)
    requires n < |bar| && Full(bar[n]) && ScanUpTo(bar, minWidth, n).begin == -1
    ensures ScanUpTo(bar, minWidth, n + 1) == Scan(n, ScanUpTo(bar, minWidth, n).widths)
  {
  }

  /** A full column inside an open run, or a gap column with no run open,
      leaves the scan state unchanged. */
  lemma QuietColumn(bar: seq<int>, minWidth: real, n: nat)
    requires n < |bar|
    requires var st := ScanUpTo(bar, minWidth, n); (Full(bar[n]) && st.begin != -1) || (!Full(bar[n]) && st.begin == -1)
    ensures ScanUpTo(bar, minWidth, n + 1) == ScanUpTo(bar, minWidth, n)
  {
  }

  /** A run still open after the last column is not emitted: every chunk
      ends before it began. */
  lemma OpenRunDropped(bar: seq<int>, minWidth: real)
    requires ScanUpTo(bar, minWidth, |bar|).begin != -1
    ensures var st := ScanUpTo(bar, minWidth, |bar|);
      forall i | 0 <= i < |st.widths| :: st.widths[i].1 < st.begin
  {
    ScanUpToInv(bar, minWidth, |bar|);
  }

  /** The histogram loop of PlateTools.py:103-109. */
  method ColumnCounts(img: Grid) returns (bar: array<int>)
    requires Rect(img)
    ensures bar[..] == Histogram(img)
  {
    var w, h := Cols(img), |img|;
    bar := new int[w];
    for x := 0 to w
      invariant forall c | 0 <= c < x :: bar[c] == ColumnCount(img, c, h)
    {
      var darkpix := 0;
      for y := 0 to h
        invariant darkpix == ColumnCount(img, x, y)
      {
        var currPixel := img[y][x];
        if currPixel as real > MaxPixel as real * 0.95 {
          darkpix := darkpix + 1;
        }
      }
      bar[x] := darkpix;
    }
  }

  /** `segment(img, min_width)` (PlateTools.py:98-124). `minWidth` is a real,
      as the caller passes a fraction of the plate's width. */
  method Segment(img: Grid, minWidth: real) returns (widths: seq<(int, int)>)
    requires Rect(img)
    ensures widths == Segments(Histogram(img), minWidth)
  {
    var bar := ColumnCounts(img);
    var begin := -1;
    var emptyThresh := EmptyThresh;
    widths := [];
    var length := bar.Length;
    for z := 0 to length
      invariant Scan(begin, widths) == ScanUpTo(bar[..], minWidth, z)
    {
      if bar[z] <= emptyThresh && begin != -1 && (z - begin) as real > minWidth {
        widths := widths + [(begin, z)];
        begin := -1;
      } else if bar[z] > emptyThresh && begin == -1 {
        begin := z;
      }
    }
  }
}
