/**
 * The "major neighbour" of a set of grid coordinates, computed identically by
 * ParticleWrapper.getMajorNeighbour (src/particleRemoval.js:114-179) and
 * ParticleRemoval.getMajorNeighbour (src/particleRemoval.js:190-241): stably sort
 * the coordinates by R²+G²+B² of their pixel, then scan the sorted list for runs of
 * equal colour; the answer is the last element of the first longest run and the
 * run's length.
 */
module MajorNeighbour {
  import opened Helper
  import opened Sorting

  /** c lies on the grid g (rows indexed by y, columns by x). */
  predicate OnBoard(g: seq<seq<Pixel>>, c: Coord)
  {
    0 <= c.y < |g| && 0 <= c.x < |g[c.y]|
  }

  predicate AllOnBoard(g: seq<seq<Pixel>>, s: seq<Coord>)
  {
    forall k :: 0 <= k < |s| ==> OnBoard(g, s[k])
  }

  /** The colour at c; coordinates off the grid are never looked up. */
  function ColourAt(g: seq<seq<Pixel>>, c: Coord): Pixel
  {
    if OnBoard(g, c) then g[c.y][c.x] else BACKGROUND_COLOR
  }

  /** The sort key of the comparator: R²+G²+B² of the coordinate's pixel. */
  function KeyIn(g: seq<seq<Pixel>>): Coord -> int
  {
    c => SumSquares(ColourAt(g, c))
  }

  function Sorted(g: seq<seq<Pixel>>, s: seq<Coord>): (r: seq<Coord>)
    ensures |r| == |s|
  {
    SortBy(s, KeyIn(g))
  }

  /** s[e] has the colour of s[e - 1]: the run goes on. */
  predicate Continues(g: seq<seq<Pixel>>, s: seq<Coord>, e: nat)
    requires 0 < e < |s|
  {
    ColourAt(g, s[e]) == ColourAt(g, s[e - 1])
  }

  /** A run of equal colours ends at e. */
  predicate RunEnd(g: seq<seq<Pixel>>, s: seq<Coord>, e: nat)
    requires e < |s|
  {
    e == |s| - 1 || !Continues(g, s, e + 1)
  }

  /** The length of the run of equal colours that ends at e. */
  function RunLen(g: seq<seq<Pixel>>, s: seq<Coord>, e: nat): (n: nat)
    requires e < |s|
    ensures 1 <= n <= e + 1
  {
    if e == 0 || !Continues(g, s, e) then 1 else RunLen(g, s, e - 1) + 1
  }

  /** e ends a run that no run is longer than, and every earlier run is strictly shorter. */
  predicate FirstLongest(g: seq<seq<Pixel>>, s: seq<Coord>, e: nat)
    requires e < |s|
  {
    && RunEnd(g, s, e)
    && (forall d :: 0 <= d < |s| && RunEnd(g, s, d) ==> RunLen(g, s, d) <= RunLen(g, s, e))
    && (forall d :: 0 <= d < e && RunEnd(g, s, d) ==> RunLen(g, s, d) < RunLen(g, s, e))
  }

  /**
   * What getMajorNeighbour returns for the coordinates s: nothing and count 0 for no
   * coordinates, otherwise the last element of the first longest run of the sorted
   * coordinates and that run's length.
   */
  predicate IsMajor(g: seq<seq<Pixel>>, s: seq<Coord>, neighbour: Option<Coord>, count: nat)
  {
    if |s| == 0 then neighbour == None && count == 0
    else exists e :: (0 <= e < |s| && FirstLongest(g, Sorted(g, s), e)
                      && neighbour == Some(Sorted(g, s)[e]) && count == RunLen(g, Sorted(g, s), e))
  }

  /** The sort, then the scan, of getMajorNeighbour. */
  method MajorOf(grid: array2<Pixel>, nbrs: seq<Coord>) returns (neighbour: Option<Coord>, count: nat)
    requires AllOnBoard(Contents(grid), nbrs)
    ensures IsMajor(Contents(grid), nbrs, neighbour, count)
  {
    var g := Contents(grid);
    var s := Sorted(g, nbrs);
    SortedOnBoard(g, nbrs);
    var maxIdx;
    maxIdx, count := ScanRuns(g, s);
    if |s| == 0 {
      neighbour := None;
    } else {
      neighbour := Some(s[maxIdx]);
    }
  }

  /**
   * The scan over the sorted coordinates followed by a [-1, -1] sentinel: a run
   * closes before the sentinel or a change of colour, and replaces the best so far
   * only when strictly longer.
   */
  method ScanRuns(g: seq<seq<Pixel>>, s: seq<Coord>) returns (maxIdx: nat, maxCount: nat)
    requires AllOnBoard(g, s)
    ensures |s| == 0 ==> maxIdx == 0 && maxCount == 0
    ensures |s| > 0 ==> maxIdx < |s| && FirstLongest(g, s, maxIdx) && maxCount == RunLen(g, s, maxIdx)
  {
    var arr := s + [Coord(-1, -1)];
    var run := 1;
    maxCount := 0;
    maxIdx := 0;
    for i := 1 to |arr|
      invariant ScanInv(g, s, i, run, maxIdx, maxCount)
    {
      var curr := arr[i];
      var prev := arr[i - 1];
      assert i < |s| ==> curr == s[i] && OnBoard(g, curr);
      assert prev == s[i - 1] && OnBoard(g, prev);
      var same := curr.x != -1 && curr.y != -1 && SameColor(g[curr.y][curr.x], g[prev.y][prev.x]);
      assert same <==> i < |s| && Continues(g, s, i);
      ScanStep(g, s, i, run, maxIdx, maxCount);
      if same {
        run := run + 1;
      } else {
        if run > maxCount {
          maxCount := run;
          maxIdx := i - 1;
        }
        run := 1;
      }
    }
    if |s| > 0 {
      ScanFinal(g, s, run, maxIdx, maxCount);
    }
  }

  /**
   * Before position i: run is the length of the open run, and maxIdx ends the first
   * longest of the runs closed so far (maxCount == 0 while none is closed).
   */
  predicate ScanInv(g: seq<seq<Pixel>>, s: seq<Coord>, i: nat, run: nat, maxIdx: nat, maxCount: nat)
  {
    && 1 <= i <= |s| + 1
    && (i <= |s| ==> run == RunLen(g, s, i - 1))
    && (maxCount == 0 ==> maxIdx == 0 && forall d :: 0 <= d < i - 1 ==> !RunEnd(g, s, d))
    && (maxCount > 0 ==> maxIdx < i - 1 && RunEnd(g, s, maxIdx) && maxCount == RunLen(g, s, maxIdx))
    && (forall d :: 0 <= d < i - 1 && RunEnd(g, s, d) ==> RunLen(g, s, d) <= maxCount)
    && (forall d :: 0 <= d < maxIdx && RunEnd(g, s, d) ==> RunLen(g, s, d) < maxCount)
  }

  lemma ScanStep(g: seq<seq<Pixel>>, s: seq<Coord>, i: nat, run: nat, maxIdx: nat, maxCount: nat)
    requires i <= |s| && ScanInv(g, s, i, run, maxIdx, maxCount)
    ensures i < |s| && Continues(g, s, i) ==> ScanInv(g, s, i + 1, run + 1, maxIdx, maxCount)
    ensures !(i < |s| && Continues(g, s, i)) && run > maxCount ==> ScanInv(g, s, i + 1, 1, i - 1, run)
    ensures !(i < |s| && Continues(g, s, i)) && run <= maxCount ==> ScanInv(g, s, i + 1, 1, maxIdx, maxCount)
  {
    RunStep(g, s, i);
  }

  /** Position i either lengthens the run ending at i - 1 or closes it. */
  lemma RunStep(g: seq<seq<Pixel>>, s: seq<Coord>, i: nat)
    requires 0 < i <= |s|
    ensures i < |s| && Continues(g, s, i) ==> RunLen(g, s, i) == RunLen(g, s, i - 1) + 1 && !RunEnd(g, s, i - 1)
    ensures i < |s| && !Continues(g, s, i) ==> RunLen(g, s, i) == 1 && RunEnd(g, s, i - 1)
    ensures i == |s| ==> RunEnd(g, s, i - 1)
  {
  }

  /** The scan state (run, maxIdx, maxCount) before position i, as ScanRuns computes it. */
  ghost function ScanState(g: seq<seq<Pixel>>, s: seq<Coord>, i: nat): (st: (nat, nat, nat))
    requires 0 < |s| && 1 <= i <= |s| + 1
    ensures st.1 < |s|
  {
    if i == 1 then (1, 0, 0)
    else
      var st0 := ScanState(g, s, i - 1);
      if i - 1 < |s| && Continues(g, s, i - 1) then (st0.0 + 1, st0.1, st0.2)
      else if st0.0 > st0.2 then (1, i - 2, st0.0)
      else (1, st0.1, st0.2)
  }

  lemma {:induction false} ScanStateInv(g: seq<seq<Pixel>>, s: seq<Coord>, i: nat)
    requires 0 < |s| && 1 <= i <= |s| + 1
    ensures var st := ScanState(g, s, i); ScanInv(g, s, i, st.0, st.1, st.2)
  {
    if i > 1 {
      ScanStateInv(g, s, i - 1);
      var st0 := ScanState(g, s, i - 1);
      ScanStep(g, s, i - 1, st0.0, st0.1, st0.2);
    }
  }

  /** The major neighbour and its count as a value: what MajorOf returns (MajorSpec). */
  ghost function Major(g: seq<seq<Pixel>>, s: seq<Coord>): (Option<Coord>, nat)
  {
    if |s| == 0 then (None, 0)
    else
      var r := Sorted(g, s);
      var st := ScanState(g, r, |r| + 1);
      (Some(r[st.1]), st.2)
  }

  lemma MajorSpec(g: seq<seq<Pixel>>, s: seq<Coord>)
    ensures IsMajor(g, s, Major(g, s).0, Major(g, s).1)
  {
    if |s| > 0 {
      var r := Sorted(g, s);
      ScanStateInv(g, r, |r| + 1);
      var st := ScanState(g, r, |r| + 1);
      ScanFinal(g, r, st.0, st.1, st.2);
    }
  }

  /** After the sentinel, the best run is the first longest one. */
  lemma ScanFinal(g: seq<seq<Pixel>>, s: seq<Coord>, run: nat, maxIdx: nat, maxCount: nat)
    requires |s| > 0 && ScanInv(g, s, |s| + 1, run, maxIdx, maxCount)
    ensures maxIdx < |s| && FirstLongest(g, s, maxIdx) && maxCount == RunLen(g, s, maxIdx)
  {
    assert RunEnd(g, s, |s| - 1);
  }

  lemma SortedOnBoard(g: seq<seq<Pixel>>, s: seq<Coord>)
    requires AllOnBoard(g, s)
    ensures AllOnBoard(g, Sorted(g, s))
  {
    var r := Sorted(g, s);
    SortByPermutation(s, KeyIn(g));
    forall k | 0 <= k < |r|
      ensures OnBoard(g, r[k])
    {
      assert r[k] in multiset(s);
    }
  }

  // ---------------------------------------------------------------------------
  // What the scan promises
  // ---------------------------------------------------------------------------

  /** The run ending at e is maximal: its elements share one colour and the one before it differs. */
  lemma {:induction false} RunLenColour(g: seq<seq<Pixel>>, s: seq<Coord>, e: nat)
    requires e < |s|
    ensures forall k :: e - RunLen(g, s, e) < k <= e ==> ColourAt(g, s[k]) == ColourAt(g, s[e])
    ensures e - RunLen(g, s, e) >= 0 ==> ColourAt(g, s[e - RunLen(g, s, e)]) != ColourAt(g, s[e - RunLen(g, s, e) + 1])
  {
    if e > 0 && Continues(g, s, e) {
      RunLenColour(g, s, e - 1);
    }
  }

  /** At most one position is the end of the first longest run. */
  lemma FirstLongestUnique(g: seq<seq<Pixel>>, s: seq<Coord>, e1: nat, e2: nat)
    requires e1 < |s| && e2 < |s|
    requires FirstLongest(g, s, e1) && FirstLongest(g, s, e2)
    ensures e1 == e2
  {
  }

  /** The result is determined by the grid and the coordinates. */
  lemma MajorDeterministic(g: seq<seq<Pixel>>, s: seq<Coord>, n1: Option<Coord>, c1: nat, n2: Option<Coord>, c2: nat)
    requires IsMajor(g, s, n1, c1) && IsMajor(g, s, n2, c2)
    ensures n1 == n2 && c1 == c2
  {
    if |s| > 0 {
      var r := Sorted(g, s);
      var e1 :| 0 <= e1 < |s| && FirstLongest(g, r, e1) && n1 == Some(r[e1]) && c1 == RunLen(g, r, e1);
      var e2 :| 0 <= e2 < |s| && FirstLongest(g, r, e2) && n2 == Some(r[e2]) && c2 == RunLen(g, r, e2);
      FirstLongestUnique(g, r, e1, e2);
    }
  }

  /**
   * The count is 0 exactly when there are no coordinates; otherwise the neighbour is
   * one of them, the count is between 1 and their number, and the neighbour is the
   * last of count consecutive sorted coordinates of its colour.
   */
  lemma MajorFacts(g: seq<seq<Pixel>>, s: seq<Coord>, neighbour: Option<Coord>, count: nat)
    requires IsMajor(g, s, neighbour, count)
    ensures count == 0 <==> |s| == 0
    ensures neighbour.None? <==> |s| == 0
    ensures neighbour.Some? ==> neighbour.value in s && count <= |s|
    ensures neighbour.Some? ==> exists e :: (0 <= e < |s| && Sorted(g, s)[e] == neighbour.value && count <= e + 1
                                             && forall k :: e - count < k <= e ==> ColourAt(g, Sorted(g, s)[k]) == ColourAt(g, neighbour.value))
  {
    if |s| > 0 {
      var r := Sorted(g, s);
      var e :| 0 <= e < |s| && FirstLongest(g, r, e) && neighbour == Some(r[e]) && count == RunLen(g, r, e);
      SortByPermutation(s, KeyIn(g));
      assert r[e] in multiset(s);
      RunLenColour(g, r, e);
    }
  }

  /** The answer of getMajorNeighbour is one of the neighbours, and there is one exactly when the set is not empty. */
  lemma MajorIn(g: seq<seq<Pixel>>, s: seq<Coord>, neighbour: Option<Coord>, count: nat)
    requires IsMajor(g, s, neighbour, count)
    ensures (count > 0 <==> |s| > 0) && (neighbour.Some? <==> |s| > 0)
    ensures neighbour.Some? ==> neighbour.value in s
  {
    MajorFacts(g, s, neighbour, count);
  }
}
