/** Binarisation around the mean of one sample row (`threshold`,
    PlateTools.py:52-74). The average is the floor of the row's mean, as
    integer division in the source computes it; every pixel below it becomes
    255 and every other pixel 0; `total` adds 255 for each pixel of the
    sample row that became 255. */
module Thresholding {
  import opened Grids

  /** The sum of a row. */
  function RowSum(s: seq<int>): int {
    if |s| == 0 then 0 else RowSum(s[..|s| - 1]) + s[|s| - 1]
  }

  /** The floor of the mean of a non-empty row (`avg /= w` on integers). */
  function Average(s: seq<int>): (r: int)
    requires |s| > 0
    ensures |s| * r <= RowSum(s) < |s| * (r + 1)
  {
    RowSum(s) / |s|
  }

  /** How many elements of `s` lie below `t`. */
  function CountBelow(s: seq<int>, t: int): (r: nat)
    ensures r <= |s|
  {
    if |s| == 0 then 0 else CountBelow(s[..|s| - 1], t) + if s[|s| - 1] < t then 1 else 0
  }

  /** A row whose elements all lie below `t` sums to at most
      `|s| * t - |s|`. */
  lemma {:induction false} SumBelow(s: seq<int>, t: int)
    requires forall i | 0 <= i < |s| :: s[i] < t
    ensures RowSum(s) <= |s| * t - |s|
  {
    if |s| > 0 {
      SumBelow(s[..|s| - 1], t);
      assert (|s| - 1) * t + t == |s| * t;
    }
  }

  /** Some element of a non-empty row is at least its average. */
  lemma NotAllBelowAverage(s: seq<int>)
    requires |s| > 0
    ensures exists i | 0 <= i < |s| :: s[i] >= Average(s)
  {
    var avg := Average(s);
    if forall i | 0 <= i < |s| :: s[i] < avg {
      SumBelow(s, avg);
      assert false;
    }
  }

  /** An element not below `t` leaves at most `|s| - 1` elements below it. */
  lemma {:induction false} CountBelowMissesOne(s: seq<int>, t: int, i: int)
    requires 0 <= i < |s| && s[i] >= t
    ensures CountBelow(s, t) <= |s| - 1
  {
    if i < |s| - 1 {
      CountBelowMissesOne(s[..|s| - 1], t, i);
    }
  }

  /** The number of sample-row pixels that become 255 is less than the row
      length: the row's largest pixel is never below its mean. */
  lemma CountBelowAverage(s: seq<int>)
    requires |s| > 0
    ensures CountBelow(s, Average(s)) <= |s| - 1
  {
    NotAllBelowAverage(s);
    var i :| 0 <= i < |s| && s[i] >= Average(s);
    CountBelowMissesOne(s, Average(s), i);
  }

  /** The value pixel `v` takes for average `avg`. */
  function Binary(v: int, avg: int): (r: int)
    ensures r == 0 || r == MaxPixel
    ensures r == MaxPixel <==> v < avg
  {
    if v < avg then MaxPixel else 0
  }

  /** The sum loop of PlateTools.py:58-61 over row `sampleH` of the copy. */
  method SampleAverage(out: array2<int>, sampleH: int, ghost row: seq<int>) returns (avg: int)
    requires 0 <= sampleH < out.Length0 && out.Length1 > 0 && |row| == out.Length1
    requires forall y | 0 <= y < |row| :: out[sampleH, y] == row[y]
    ensures avg == Average(row)
  {
    avg := 0;
    for x := 0 to out.Length1
      invariant avg == RowSum(row[..x])
    {
      assert row[..x + 1][..x] == row[..x];
      avg := avg + out[sampleH, x];
    }
    assert row[..out.Length1] == row;
    avg := avg / out.Length1;
  }

  /** The `y` loop of PlateTools.py:66-72 over column `x`. */
  method ThresholdColumn(img: Grid, out: array2<int>, x: int, sampleH: int, avg: int, total0: int)
    returns (total: int)
    requires Rect(img) && 0 <= x < Cols(img) && 0 <= sampleH < |img|
    requires out.Length0 == |img| && out.Length1 == Cols(img)
    requires forall a, b | InGrid(img, a, b) :: out[a, b] == if b < x then Binary(img[a][b], avg) else img[a][b]
    modifies out
    ensures forall a, b | InGrid(img, a, b) :: out[a, b] == if b <= x then Binary(img[a][b], avg) else img[a][b]
    ensures total == total0 + if img[sampleH][x] < avg then MaxPixel else 0
  {
    total := total0;
    for y := 0 to out.Length0
      invariant forall a, b | InGrid(img, a, b) ::
        out[a, b] == if b < x || (b == x && a < y) then Binary(img[a][b], avg) else img[a][b]
      invariant total == total0 + if y > sampleH && img[sampleH][x] < avg then MaxPixel else 0
    {
      if out[y, x] < avg {
        out[y, x] := MaxPixel;
        if y == sampleH {
          total := total + MaxPixel;
        }
      } else {
        out[y, x] := 0;
      }
    }
  }

  /** `threshold(img, sample_h)` (PlateTools.py:52-74): a binarised copy of
      `img` and the 255-weighted count of sample-row pixels below the
      average, which stays below `255 * w`. */
  method Threshold(img: Grid, sampleH: int) returns (out: array2<int>, total: int)
    requires Rect(img) && 0 <= sampleH < |img| && Cols(img) > 0
    ensures out.Length0 == |img| && out.Length1 == Cols(img)
    ensures var avg := Average(img[sampleH]);
      forall a, b | InGrid(img, a, b) :: out[a, b] == Binary(img[a][b], avg)
    ensures total == MaxPixel * CountBelow(img[sampleH], Average(img[sampleH]))
    ensures 0 <= total <= MaxPixel * (Cols(img) - 1)
  {
    out := ToMatrix(img);
    var avg := SampleAverage(out, sampleH, img[sampleH]);
    ghost var row := img[sampleH];
    total := 0;
    for x := 0 to Cols(img)
      invariant forall a, b | InGrid(img, a, b) :: out[a, b] == if b < x then Binary(img[a][b], avg) else img[a][b]
      invariant total == MaxPixel * CountBelow(row[..x], avg)
    {
      assert row[..x + 1][..x] == row[..x];
      total := ThresholdColumn(img, out, x, sampleH, avg, total);
    }
    assert row[..Cols(img)] == row;
    CountBelowAverage(row);
  }
}
