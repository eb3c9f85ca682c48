/** Plate candidates and component counts (`filter_ratio`,
    PlateTools.py:20-40, and `count_comps`, PlateTools.py:84-87). Both take
    the labelling `ndimage.label` computes as a parameter that satisfies
    `IsLabelling`. */
module Candidates {
  import opened Grids
  import opened Labelling

  /** The height-to-width ratio of a box as a real (`h1 / float(w1)`). */
  function Ratio(b: Box): (r: real)
    requires Width(b) > 0
    ensures r * Width(b) as real == Height(b) as real
  {
    Height(b) as real / Width(b) as real
  }

  /** The ratio lies strictly within `epsilon` of `ratio`. */
  predicate Fits(b: Box, ratio: real, epsilon: real)
    requires Width(b) > 0
  {
    ratio - epsilon < Ratio(b) < ratio + epsilon
  }

  /** The tight box of label `l` fits. */
  predicate LabelFits(lab: Grid, l: int, ratio: real, epsilon: real)
    requires Rect(lab) && Present(lab, l)
  {
    Fits(TightBox(lab, l), ratio, epsilon)
  }

  /** The labels among `1..n` whose tight box fits, in increasing order.
      Every label listed fits; `AcceptedMembers` shows that every label that
      fits is listed. */
  function Accepted(lab: Grid, k: nat, n: nat, ratio: real, epsilon: real): (r: seq<int>)
    requires AllPresent(lab, k) && n <= k
    ensures forall i | 0 <= i < |r| :: 1 <= r[i] <= n && LabelFits(lab, r[i], ratio, epsilon)
  {
    if n == 0 then []
    else
      var prev := Accepted(lab, k, n - 1, ratio, epsilon);
      if LabelFits(lab, n, ratio, epsilon) then prev + [n] else prev
  }

  /** A label is accepted exactly when it is among `1..n` and its tight box
      fits. */
  lemma {:induction false} AcceptedMembers(lab: Grid, k: nat, n: nat, ratio: real, epsilon: real, l: int)
    requires AllPresent(lab, k) && n <= k
    ensures l in Accepted(lab, k, n, ratio, epsilon) <==> 1 <= l <= n && LabelFits(lab, l, ratio, epsilon)
  {
    if n > 0 && l < n {
      AcceptedMembers(lab, k, n - 1, ratio, epsilon, l);
    }
  }

  /** Each element is smaller than every later one. */
  predicate Ascending(s: seq<int>) {
    forall i, j | 0 <= i < j < |s| :: s[i] < s[j]
  }

  /** Appending a value above every element keeps a sequence ascending. */
  lemma AscendingAppend(s: seq<int>, v: int)
    requires Ascending(s) && forall i | 0 <= i < |s| :: s[i] < v
    ensures Ascending(s + [v])
  {
  }

  /** The accepted labels are strictly increasing, so each component yields
      at most one candidate. */
  lemma {:induction false} AcceptedAscending(lab: Grid, k: nat, n: nat, ratio: real, epsilon: real)
    requires AllPresent(lab, k) && n <= k
    ensures Ascending(Accepted(lab, k, n, ratio, epsilon))
  {
    if n > 0 {
      AcceptedAscending(lab, k, n - 1, ratio, epsilon);
      var prev := Accepted(lab, k, n - 1, ratio, epsilon);
      if LabelFits(lab, n, ratio, epsilon) {
        AscendingAppend(prev, n);
      }
    }
  }

  /** The tight boxes of the accepted labels among `1..n`, in label order;
      each is at least one pixel wide and fits. */
  function Candidates(lab: Grid, k: nat, n: nat, ratio: real, epsilon: real): (r: seq<Box>)
    requires AllPresent(lab, k) && n <= k
    ensures forall i | 0 <= i < |r| :: Width(r[i]) > 0 && Fits(r[i], ratio, epsilon)
  {
    if n == 0 then []
    else
      var prev := Candidates(lab, k, n - 1, ratio, epsilon);
      if LabelFits(lab, n, ratio, epsilon) then prev + [TightBox(lab, n)] else prev
  }

  /** The candidates are exactly the tight boxes of the accepted labels, one
      per label and in the same order. */
  lemma {:induction false} CandidatesOfAccepted(lab: Grid, k: nat, n: nat, ratio: real, epsilon: real)
    requires AllPresent(lab, k) && n <= k
    ensures var acc, r := Accepted(lab, k, n, ratio, epsilon), Candidates(lab, k, n, ratio, epsilon);
      |r| == |acc| && forall i | 0 <= i < |acc| :: r[i] == TightBox(lab, acc[i])
  {
    if n > 0 {
      CandidatesOfAccepted(lab, k, n - 1, ratio, epsilon);
    }
  }

  /** `filter_ratio` (PlateTools.py:20-40) on `edges`, given their labelling
      `(labeled, numLabels)`: the candidates over all labels. The input is a
      value, so it stays unchanged. */
  method FilterRatio(edges: Grid, labeled: Grid, numLabels: nat, ratio: real, epsilon: real)
    returns (ratioList: seq<Box>)
    requires IsLabelling(edges, labeled, numLabels)
    ensures ratioList == Candidates(labeled, numLabels, numLabels, ratio, epsilon)
    ensures forall i | 0 <= i < |ratioList| :: Width(ratioList[i]) > 0 && Fits(ratioList[i], ratio, epsilon)
  {
    ratioList := [];
    for l := 1 to numLabels + 1
      invariant ratioList == Candidates(labeled, numLabels, l - 1, ratio, epsilon)
    {
      var loc := TightBox(labeled, l);
      var r := Ratio(loc);
      if r > ratio - epsilon && r < ratio + epsilon {
        ratioList := ratioList + [loc];
      }
    }
  }

  /** The candidates depend on the image alone: every labelling of `edges`
      gives the same boxes in the same order. */
  lemma CandidatesDetermined(edges: Grid, lab1: Grid, k1: nat, lab2: Grid, k2: nat, ratio: real, epsilon: real)
    requires IsLabelling(edges, lab1, k1) && IsLabelling(edges, lab2, k2)
    ensures Candidates(lab1, k1, k1, ratio, epsilon) == Candidates(lab2, k2, k2, ratio, epsilon)
  {
    LabellingUnique(edges, lab1, k1, lab2, k2);
  }

  /** The distinct values of a sequence (`set(s)`). */
  function Distinct(s: seq<int>): set<int> {
    set v | v in s
  }

  /** A sequence has at most as many distinct values as elements, and at
      least one when it is not empty. */
  lemma {:induction false} DistinctBounds(s: seq<int>)
    ensures |Distinct(s)| <= |s|
    ensures |s| > 0 ==> |Distinct(s)| >= 1
  {
    if |s| > 0 {
      var init := s[..|s| - 1];
      DistinctBounds(init);
      assert Distinct(s) == Distinct(init) + {s[|s| - 1]} by {
        assert s == init + [s[|s| - 1]];
      }
    }
  }

  /** `count_comps` (PlateTools.py:84-87): the number of distinct labels in
      row `row` of the labelling `comps` of `img`, background included. It
      is at least 1 and at most the row length. */
  function CountComps(img: Grid, comps: Grid, k: nat, row: int): (r: nat)
    requires IsLabelling(img, comps, k) && 0 <= row < |img|
    ensures r <= Cols(img)
    ensures Cols(img) > 0 ==> r >= 1
  {
    DistinctBounds(comps[row]);
    |Distinct(comps[row])|
  }

  /** The components of `img` that meet row `row`, by label. */
  ghost function RowComponents(img: Grid, comps: Grid, k: nat, row: int): set<int>
    requires IsLabelling(img, comps, k) && 0 <= row < |img|
  {
    set b | 0 <= b < Cols(img) && img[row][b] != 0 :: comps[row][b]
  }

  /** `count_comps` counts the components meeting the row, plus one when the
      row also holds a background pixel. */
  lemma CountCompsComponents(img: Grid, comps: Grid, k: nat, row: int)
    requires IsLabelling(img, comps, k) && 0 <= row < |img|
    ensures CountComps(img, comps, k, row) ==
      |RowComponents(img, comps, k, row)| + if exists b | 0 <= b < Cols(img) :: img[row][b] == 0 then 1 else 0
  {
    var s := comps[row];
    var pos := RowComponents(img, comps, k, row);
    assert 0 !in pos;
    if exists b | 0 <= b < Cols(img) :: img[row][b] == 0 {
      assert Distinct(s) == pos + {0};
    } else {
      assert Distinct(s) == pos;
    }
  }
}
