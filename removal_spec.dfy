/**
 * What mergeNarrowPart (src/particleRemoval.js:283-404) and removeExceedingRow
 * (src/particleRemoval.js:407-470) do to the grid, as functions of the grid they
 * start from. The methods of ParticleRemoval are proved to compute exactly these.
 */
module RemovalSpec {
  import opened Helper
  import opened MajorNeighbour
  import opened Neighbourhood
  import opened ParticleSpec

  /** g is an h × w grid. */
  predicate IsGrid(g: seq<seq<Pixel>>, h: int, w: int)
  {
    w >= 0 && |g| == h && Rectangular(g, w)
  }

  /** Painting pixels of the grid keeps its shape. */
  lemma PaintGrid(g: seq<seq<Pixel>>, cells: seq<Coord>, col: Pixel, h: int, w: int)
    requires IsGrid(g, h, w) && AllOnBoard(g, cells)
    ensures IsGrid(PaintCells(g, cells, col), h, w)
  {
  }

  /** The pixels of a run of row y lie on the grid. */
  lemma RowCellsOnBoard(g: seq<seq<Pixel>>, run: seq<int>, y: int, h: int, w: int)
    requires IsGrid(g, h, w) && 0 <= y < h
    requires forall t :: 0 <= t < |run| ==> 0 <= run[t] < w
    ensures AllOnBoard(g, RowCells(run, y))
  {
  }

  predicate AllInRange(s: seq<Coord>, h: int, w: int)
  {
    forall k :: 0 <= k < |s| ==> InRange(s[k], h, w)
  }

  /** The cells of a run of row y lie on an h × w grid. */
  lemma RowCellsInRange(run: seq<int>, y: int, h: int, w: int)
    requires 0 <= y < h
    requires forall t :: 0 <= t < |run| ==> 0 <= run[t] < w
    ensures AllInRange(RowCells(run, y), h, w)
  {
  }

  /** On an h × w grid, coordinates in range are on the board. */
  lemma InRangeOnBoard(g: seq<seq<Pixel>>, s: seq<Coord>, h: int, w: int)
    requires IsGrid(g, h, w) && AllInRange(s, h, w)
    ensures AllOnBoard(g, s)
  {
  }

  /** The xs of a group of pixels. */
  function Xs(group: seq<Coord>): (xs: seq<int>)
    ensures |xs| == |group| && forall t :: 0 <= t < |group| ==> xs[t] == group[t].x
  {
    seq(|group|, t requires 0 <= t < |group| => group[t].x)
  }

  /** A group of groupPixelsByRow: pixels of one row of the grid, x strictly increasing. */
  predicate RowGroup(group: seq<Coord>, h: int, w: int)
  {
    && |group| > 0
    && (forall t :: 0 <= t < |group| ==> InRange(group[t], h, w) && group[t].y == group[0].y)
    && Increasing(Xs(group))
  }

  predicate RowGroups(grouped: seq<seq<Coord>>, h: int, w: int)
  {
    forall k :: 0 <= k < |grouped| ==> RowGroup(grouped[k], h, w)
  }

  /** Non-empty runs of xs lying in [0, w). */
  predicate RunsIn(rs: seq<seq<int>>, w: int)
  {
    forall q :: 0 <= q < |rs| ==> |rs[q]| > 0 && forall t :: 0 <= t < |rs[q]| ==> 0 <= rs[q][t] < w
  }

  /** The grid after one step of mergeNarrowPart, and whether that step repainted anything. */
  datatype Merge = Merge(g: seq<seq<Pixel>>, modified: bool)

  /** Every neighbour of a run lies on the grid. */
  lemma RunNeighboursInRange(grouped: seq<seq<Coord>>, k: nat, y: int, run: seq<int>, h: int, w: int)
    requires k < |grouped| && 0 <= y < h
    requires forall t :: 0 <= t < |run| ==> 0 <= run[t] < w
    ensures AllInRange(RunNeighbours(grouped, k, y, run, h, w), h, w)
  {
    var cells := RowCells(run, y);
    var vis := AddAll([], cells);
    AddAllSpec([], cells);
    forall t | 0 <= t < |vis|
      ensures InRange(vis[t], h, w)
    {
      assert vis[t] in cells;
    }
    SpreadInRange([], vis, vis, ExcludedRows(grouped, k), h, w);
  }

  /** The repaint condition: a major neighbour was found and its colour differs from c. */
  predicate Repaints(g: seq<seq<Pixel>>, neighbour: Option<Coord>, count: nat, c: Pixel)
  {
    count > 0 && neighbour.Some? && ColourAt(g, neighbour.value) != c
  }

  /**
   * One contiguous run of row y in group k (src/particleRemoval.js:304-367): when the run
   * is narrow, its pixels take the colour of the major neighbour of the run, found with
   * the rows of groups k - 1 and k + 1 excluded, provided there is one and its colour
   * differs from the run's first pixel.
   */
  ghost function RunResult(g: seq<seq<Pixel>>, grouped: seq<seq<Coord>>, k: nat, y: int, run: seq<int>, limit: int, h: int, w: int): (r: Merge)
    requires IsGrid(g, h, w) && k < |grouped| && 0 <= y < h && |run| > 0
    requires forall t :: 0 <= t < |run| ==> 0 <= run[t] < w
    ensures IsGrid(r.g, h, w)
  {
    if !NarrowRun(g, y, run, limit) then Merge(g, false)
    else
      var major := Major(g, RunNeighbours(grouped, k, y, run, h, w));
      if Repaints(g, major.0, major.1, g[y][run[0]])
      then
        RowCellsOnBoard(g, run, y, h, w);
        PaintGrid(g, RowCells(run, y), ColourAt(g, major.0.value), h, w);
        Merge(PaintCells(g, RowCells(run, y), ColourAt(g, major.0.value)), true)
      else Merge(g, false)
  }

  /** A run that is not narrow is left alone. */
  lemma RunResultNotNarrow(g: seq<seq<Pixel>>, grouped: seq<seq<Coord>>, k: nat, y: int, run: seq<int>, limit: int, h: int, w: int)
    requires IsGrid(g, h, w) && k < |grouped| && 0 <= y < h && |run| > 0
    requires forall t :: 0 <= t < |run| ==> 0 <= run[t] < w
    requires !NarrowRun(g, y, run, limit)
    ensures RunResult(g, grouped, k, y, run, limit, h, w) == Merge(g, false)
  {
  }

  /** RunResult of a narrow run, given any answer of getMajorNeighbour for its neighbours. */
  lemma RunResultIs(g: seq<seq<Pixel>>, grouped: seq<seq<Coord>>, k: nat, y: int, run: seq<int>, limit: int, h: int, w: int,
                    neighbour: Option<Coord>, count: nat)
    requires IsGrid(g, h, w) && k < |grouped| && 0 <= y < h && |run| > 0
    requires forall t :: 0 <= t < |run| ==> 0 <= run[t] < w
    requires NarrowRun(g, y, run, limit)
    requires IsMajor(g, RunNeighbours(grouped, k, y, run, h, w), neighbour, count)
    ensures count > 0 ==> neighbour.Some?
    ensures Repaints(g, neighbour, count, g[y][run[0]]) ==>
      (AllOnBoard(g, RowCells(run, y))
       && RunResult(g, grouped, k, y, run, limit, h, w) == Merge(PaintCells(g, RowCells(run, y), ColourAt(g, neighbour.value)), true))
    ensures !Repaints(g, neighbour, count, g[y][run[0]]) ==> RunResult(g, grouped, k, y, run, limit, h, w) == Merge(g, false)
  {
    var nb := RunNeighbours(grouped, k, y, run, h, w);
    var major := Major(g, nb);
    MajorSpec(g, nb);
    MajorDeterministic(g, nb, neighbour, count, major.0, major.1);
    MajorFacts(g, nb, neighbour, count);
    RowCellsOnBoard(g, run, y, h, w);
  }

  /**
   * What the closing repaint of a merge did to g, giving g1: the cells took the major
   * neighbour's colour exactly when Repaints holds for the colour at c; otherwise g is kept.
   */
  ghost predicate Repainted(g: seq<seq<Pixel>>, g1: seq<seq<Pixel>>, cells: seq<Coord>, c: Coord,
                            neighbour: Option<Coord>, count: nat, repainted: bool)
  {
    && (repainted <==> Repaints(g, neighbour, count, ColourAt(g, c)))
    && (repainted ==> neighbour.Some? && AllOnBoard(g, cells) && g1 == PaintCells(g, cells, ColourAt(g, neighbour.value)))
    && (!repainted ==> g1 == g)
  }

  /** The outcome of a narrow run: repainted exactly when the major neighbour's colour differs. */
  lemma RunOutcome(g: seq<seq<Pixel>>, g1: seq<seq<Pixel>>, grouped: seq<seq<Coord>>, k: nat, y: int, run: seq<int>, limit: int, h: int, w: int,
                   neighbour: Option<Coord>, count: nat, repainted: bool)
    requires IsGrid(g, h, w) && k < |grouped| && 0 <= y < h && |run| > 0
    requires forall t :: 0 <= t < |run| ==> 0 <= run[t] < w
    requires NarrowRun(g, y, run, limit)
    requires IsMajor(g, RunNeighbours(grouped, k, y, run, h, w), neighbour, count)
    requires Repainted(g, g1, RowCells(run, y), Coord(run[0], y), neighbour, count, repainted)
    ensures Merge(g1, repainted) == RunResult(g, grouped, k, y, run, limit, h, w)
  {
    RunResultIs(g, grouped, k, y, run, limit, h, w, neighbour, count);
  }

  /** The runs of one row, in order; modified when any of them was repainted. */
  ghost function RunsResult(g: seq<seq<Pixel>>, grouped: seq<seq<Coord>>, k: nat, y: int, runs: seq<seq<int>>, limit: int, h: int, w: int): (r: Merge)
    requires IsGrid(g, h, w) && k < |grouped| && 0 <= y < h && RunsIn(runs, w)
    ensures IsGrid(r.g, h, w)
  {
    if runs == [] then Merge(g, false)
    else
      var m0 := RunsResult(g, grouped, k, y, runs[..|runs| - 1], limit, h, w);
      var r := RunResult(m0.g, grouped, k, y, runs[|runs| - 1], limit, h, w);
      Merge(r.g, m0.modified || r.modified)
  }

  /**
   * A group of one pixel (src/particleRemoval.js:376-402): it takes the colour of its
   * major neighbour, with nothing excluded, when that colour differs from its own.
   */
  ghost function SingleResult(g: seq<seq<Pixel>>, c: Coord, h: int, w: int): (r: Merge)
    requires IsGrid(g, h, w) && InRange(c, h, w)
    ensures IsGrid(r.g, h, w)
  {
    var major := Major(g, Spread([], [c], [c], [], h, w));
    if Repaints(g, major.0, major.1, g[c.y][c.x])
    then
      PaintGrid(g, [c], ColourAt(g, major.0.value), h, w);
      Merge(PaintCells(g, [c], ColourAt(g, major.0.value)), true)
    else Merge(g, false)
  }

  /** SingleResult, given any answer of getMajorNeighbour and the repaint it leads to. */
  lemma SingleOutcome(g: seq<seq<Pixel>>, g1: seq<seq<Pixel>>, c: Coord, h: int, w: int,
                      neighbour: Option<Coord>, count: nat, repainted: bool)
    requires IsGrid(g, h, w) && InRange(c, h, w)
    requires IsMajor(g, Spread([], [c], [c], [], h, w), neighbour, count)
    requires Repainted(g, g1, [c], c, neighbour, count, repainted)
    ensures Merge(g1, repainted) == SingleResult(g, c, h, w)
  {
    var s := Spread([], [c], [c], [], h, w);
    MajorSpec(g, s);
    MajorDeterministic(g, s, neighbour, count, Major(g, s).0, Major(g, s).1);
  }

  lemma {:induction false} ExtendRunMembers(r0: seq<seq<int>>, x: int, xs: seq<int>)
    requires forall q :: 0 <= q < |r0| ==> |r0[q]| > 0 && forall t :: 0 <= t < |r0[q]| ==> r0[q][t] in xs
    requires x in xs
    ensures forall q :: 0 <= q < |ExtendRun(r0, x)| ==> |ExtendRun(r0, x)[q]| > 0 && forall t :: 0 <= t < |ExtendRun(r0, x)[q]| ==> ExtendRun(r0, x)[q][t] in xs
  {
    var r := ExtendRun(r0, x);
    if r0 != [] && r0[|r0| - 1] != [] && x == r0[|r0| - 1][|r0[|r0| - 1]| - 1] + 1 {
      assert r == r0[..|r0| - 1] + [r0[|r0| - 1] + [x]];
      forall q | 0 <= q < |r|
        ensures |r[q]| > 0 && forall t :: 0 <= t < |r[q]| ==> r[q][t] in xs
      {
        if q < |r0| - 1 {
          assert r[q] == r0[q];
        }
      }
    } else {
      assert r == r0 + [[x]];
      forall q | 0 <= q < |r|
        ensures |r[q]| > 0 && forall t :: 0 <= t < |r[q]| ==> r[q][t] in xs
      {
        if q < |r0| {
          assert r[q] == r0[q];
        }
      }
    }
  }

  /** Every maximal run is non-empty and made of elements of xs. */
  lemma {:induction false} MaxRunsMembers(xs: seq<int>, ys: seq<int>)
    requires forall t :: 0 <= t < |xs| ==> xs[t] in ys
    ensures forall q :: 0 <= q < |MaxRuns(xs)| ==> |MaxRuns(xs)[q]| > 0 && forall t :: 0 <= t < |MaxRuns(xs)[q]| ==> MaxRuns(xs)[q][t] in ys
  {
    if xs != [] {
      var p := xs[..|xs| - 1];
      MaxRunsMembers(p, ys);
      ExtendRunMembers(MaxRuns(p), xs[|xs| - 1], ys);
    }
  }

  /** The runs of a prefix of a group lie within the grid's width. */
  lemma MaxRunsIn(group: seq<Coord>, i: nat, h: int, w: int)
    requires RowGroup(group, h, w) && 0 < i <= |group|
    ensures RunsIn(MaxRuns(Xs(group)[..i]), w)
    ensures RunsIn(MaxRuns(Xs(group)[..i])[..|MaxRuns(Xs(group)[..i])| - 1], w)
  {
    var xs := Xs(group)[..i];
    MaxRunsMembers(xs, xs);
    var rs := MaxRuns(xs);
    forall q, t | 0 <= q < |rs| && 0 <= t < |rs[q]|
      ensures 0 <= rs[q][t] < w
    {
      var u :| 0 <= u < |xs| && xs[u] == rs[q][t];
      assert InRange(group[u], h, w);
    }
  }

  lemma ScannedRunsIn(group: seq<Coord>, h: int, w: int)
    requires RowGroup(group, h, w) && |group| >= 2
    ensures RunsIn(ScannedRuns(Xs(group)), w)
  {
    assert Xs(group)[..|group|] == Xs(group);
    MaxRunsIn(group, |group|, h, w);
  }

  /** All runs but the last: those the row scan has already closed. */
  function AllButLast(rs: seq<seq<int>>): seq<seq<int>>
    requires rs != []
  {
    rs[..|rs| - 1]
  }

  /** Closing one more run: the fold takes one more step. */
  lemma RunsResultAppend(g: seq<seq<Pixel>>, grouped: seq<seq<Coord>>, k: nat, y: int, runs: seq<seq<int>>, run: seq<int>, limit: int, h: int, w: int)
    requires IsGrid(g, h, w) && k < |grouped| && 0 <= y < h && RunsIn(runs, w)
    requires |run| > 0 && forall t :: 0 <= t < |run| ==> 0 <= run[t] < w
    ensures RunsIn(runs + [run], w)
    ensures var m0 := RunsResult(g, grouped, k, y, runs, limit, h, w);
      var r := RunResult(m0.g, grouped, k, y, run, limit, h, w);
      RunsResult(g, grouped, k, y, runs + [run], limit, h, w) == Merge(r.g, m0.modified || r.modified)
  {
    assert (runs + [run])[..|runs|] == runs;
  }

  /**
   * One more x: it joins the last maximal run when it is one more than the previous x,
   * and opens a new run otherwise.
   */
  lemma MaxRunsStep(xs: seq<int>, i: nat)
    requires 0 < i < |xs|
    ensures MaxRuns(xs[..i]) != [] && MaxRuns(xs[..i + 1]) != []
    ensures xs[i] == xs[i - 1] + 1 ==>
      && AllButLast(MaxRuns(xs[..i + 1])) == AllButLast(MaxRuns(xs[..i]))
      && MaxRuns(xs[..i + 1])[|MaxRuns(xs[..i + 1])| - 1] == MaxRuns(xs[..i])[|MaxRuns(xs[..i])| - 1] + [xs[i]]
    ensures xs[i] != xs[i - 1] + 1 ==>
      && AllButLast(MaxRuns(xs[..i + 1])) == MaxRuns(xs[..i])
      && MaxRuns(xs[..i + 1])[|MaxRuns(xs[..i + 1])| - 1] == [xs[i]]
  {
    var p := xs[..i];
    var rs := MaxRuns(p);
    assert xs[..i + 1][..i] == p;
    MaxRunsFlat(p);
    MaxRunsConsecutive(p);
    LastOfFlat(rs);
    var last := rs[|rs| - 1];
    assert last != [] && last[|last| - 1] == xs[i - 1];
    var rs1 := MaxRuns(xs[..i + 1]);
    assert rs1 == ExtendRun(rs, xs[i]);
    if xs[i] == xs[i - 1] + 1 {
      assert rs1 == rs[..|rs| - 1] + [last + [xs[i]]];
    } else {
      assert rs1 == rs + [[xs[i]]];
    }
  }

  /** The maximal runs of a prefix are its last run and the runs before it. */
  lemma AllButLastSplit(rs: seq<seq<int>>)
    requires rs != []
    ensures rs == AllButLast(rs) + [rs[|rs| - 1]]
  {
  }

  /** What the scan hands on at its last index: the open run, extended or not, closes. */
  lemma ScannedRunsEnd(xs: seq<int>)
    requires |xs| >= 2
    ensures MaxRuns(xs[..|xs| - 1]) != []
    ensures var rs := MaxRuns(xs[..|xs| - 1]);
      && (xs[|xs| - 1] == xs[|xs| - 2] + 1 ==> ScannedRuns(xs) == AllButLast(rs) + [rs[|rs| - 1] + [xs[|xs| - 1]]])
      && (xs[|xs| - 1] != xs[|xs| - 2] + 1 ==> ScannedRuns(xs) == AllButLast(rs) + [rs[|rs| - 1]])
  {
    var i := |xs| - 1;
    MaxRunsStep(xs, i);
    assert xs[..i + 1] == xs;
    var rs := MaxRuns(xs[..i]);
    if xs[i] != xs[i - 1] + 1 {
      MaxRunsLoneLast(xs);
      AllButLastSplit(rs);
    }
  }

  /**
   * One step i of the scan over the xs of a row: with closed the maximal runs of xs[..i]
   * but the last, and contiguous the last, pushing xs[i] when it follows on and closing
   * the run at a gap or at the last index leaves the same pair for xs[..i + 1], and at
   * the end the closed runs are ScannedRuns(xs).
   */
  lemma ScanAdvance(xs: seq<int>, i: nat, contiguous: seq<int>, closed: seq<seq<int>>)
    requires Increasing(xs) && 1 <= i < |xs|
    requires MaxRuns(xs[..i]) != [] && closed == AllButLast(MaxRuns(xs[..i]))
    requires contiguous == MaxRuns(xs[..i])[|MaxRuns(xs[..i])| - 1]
    ensures var run := if xs[i] - xs[i - 1] == 1 then contiguous + [xs[i]] else contiguous;
      var closes := xs[i] - xs[i - 1] > 1 || i == |xs| - 1;
      && (i + 1 < |xs| ==>
            (MaxRuns(xs[..i + 1]) != []
             && (if closes then closed + [run] else closed) == AllButLast(MaxRuns(xs[..i + 1]))
             && (if closes then [xs[i]] else run) == MaxRuns(xs[..i + 1])[|MaxRuns(xs[..i + 1])| - 1]))
      && (i + 1 == |xs| ==> closed + [run] == ScannedRuns(xs))
  {
    MaxRunsStep(xs, i);
    if i + 1 == |xs| {
      ScannedRunsEnd(xs);
      assert xs[..|xs| - 1] == xs[..i];
    }
    if xs[i] - xs[i - 1] != 1 {
      AllButLastSplit(MaxRuns(xs[..i]));
    }
  }

  /**
   * The state of the row scan of mergeNarrowPart before index i of a group's xs: prevX and
   * currX are xs[i - 1] and xs[i], contiguous is the open maximal run and closed the runs
   * before it; once the scan is over, closed is ScannedRuns(xs).
   */
  predicate RowScan(xs: seq<int>, w: int, i: nat, prevX: int, currX: int, contiguous: seq<int>, closed: seq<seq<int>>)
    requires |xs| >= 2 && 1 <= i <= |xs|
  {
    && RunsIn(closed, w)
    && (i < |xs| ==> prevX == xs[i - 1] && currX == xs[i])
    && (i < |xs| ==> MaxRuns(xs[..i]) != [] && closed == AllButLast(MaxRuns(xs[..i]))
                     && contiguous == MaxRuns(xs[..i])[|MaxRuns(xs[..i])| - 1])
    && (i < |xs| ==> |contiguous| > 0 && forall t :: 0 <= t < |contiguous| ==> 0 <= contiguous[t] < w)
    && (i == |xs| ==> closed == ScannedRuns(xs))
  }

  /** The scan starts with the first x as the open run and nothing closed. */
  lemma RowScanStart(group: seq<Coord>, h: int, w: int)
    requires RowGroup(group, h, w) && |group| >= 2
    ensures RowScan(Xs(group), w, 1, group[0].x, group[1].x, [group[0].x], [])
  {
    var xs := Xs(group);
    assert xs[..1] == [xs[0]];
    assert MaxRuns(xs[..1]) == [[xs[0]]];
    assert InRange(group[0], h, w);
  }

  /**
   * One step of the scan: the run that closes at index i (if any), and the state after it.
   * The closed run, when there is one, lies on the row.
   */
  lemma RowScanStep(group: seq<Coord>, h: int, w: int, i: nat, prevX: int, currX: int, contiguous: seq<int>, closed: seq<seq<int>>)
    requires RowGroup(group, h, w) && |group| >= 2 && 1 <= i < |group|
    requires RowScan(Xs(group), w, i, prevX, currX, contiguous, closed)
    ensures var run := if currX - prevX == 1 then contiguous + [currX] else contiguous;
      var closes := currX - prevX > 1 || i == |group| - 1;
      var next := if i < |group| - 1 then group[i + 1].x else -1;
      && (closes ==> |run| > 0 && (forall t :: 0 <= t < |run| ==> 0 <= run[t] < w)
                     && RowScan(Xs(group), w, i + 1, currX, next, [currX], closed + [run]))
      && (!closes ==> RowScan(Xs(group), w, i + 1, currX, next, run, closed))
  {
    hide MaxRuns, ScannedRuns, AllButLast;
    var xs := Xs(group);
    assert prevX == xs[i - 1] && currX == xs[i];
    assert InRange(group[i], h, w);
    var run := if currX - prevX == 1 then contiguous + [currX] else contiguous;
    var closes := currX - prevX > 1 || i == |group| - 1;
    var next := if i < |group| - 1 then group[i + 1].x else -1;
    assert Increasing(xs);
    ScanAdvance(xs, i, contiguous, closed);
    if i + 1 < |xs| {
      assert next == xs[i + 1];
      if closes {
        RowScanNext(xs, w, i + 1, currX, next, [currX], closed + [run]);
      } else {
        RowScanNext(xs, w, i + 1, currX, next, run, closed);
      }
    } else {
      assert closes;
      assert closed + [run] == ScannedRuns(xs);
      ScannedRunsIn(group, h, w);
    }
  }

  /** RowScan before an index that is not the last, from its parts. */
  lemma RowScanNext(xs: seq<int>, w: int, i: nat, prevX: int, currX: int, contiguous: seq<int>, closed: seq<seq<int>>)
    requires |xs| >= 2 && 1 <= i < |xs|
    requires forall t :: 0 <= t < |xs| ==> 0 <= xs[t] < w
    requires prevX == xs[i - 1] && currX == xs[i]
    requires MaxRuns(xs[..i]) != [] && closed == AllButLast(MaxRuns(xs[..i]))
    requires contiguous == MaxRuns(xs[..i])[|MaxRuns(xs[..i])| - 1]
    ensures RowScan(xs, w, i, prevX, currX, contiguous, closed)
  {
    var p := xs[..i];
    MaxRunsMembers(p, p);
    var rs := MaxRuns(p);
    forall q, t | 0 <= q < |rs| && 0 <= t < |rs[q]|
      ensures 0 <= rs[q][t] < w
    {
      var u :| 0 <= u < |p| && p[u] == rs[q][t];
    }
  }

  /** Group k of mergeNarrowPart: the runs of a group of two or more pixels, or the single pixel. */
  ghost function GroupResult(g: seq<seq<Pixel>>, grouped: seq<seq<Coord>>, k: nat, limit: int, h: int, w: int): (r: Merge)
    requires IsGrid(g, h, w) && RowGroups(grouped, h, w) && k < |grouped|
    ensures IsGrid(r.g, h, w)
  {
    var group := grouped[k];
    assert RowGroup(group, h, w);
    if |group| > 1 then
      ScannedRunsIn(group, h, w);
      RunsResult(g, grouped, k, group[0].y, ScannedRuns(Xs(group)), limit, h, w)
    else SingleResult(g, group[0], h, w)
  }

  /** mergeNarrowPart over the first n groups; modified when any group was repainted. */
  ghost function MergeResult(g: seq<seq<Pixel>>, grouped: seq<seq<Coord>>, n: nat, limit: int, h: int, w: int): (r: Merge)
    requires IsGrid(g, h, w) && RowGroups(grouped, h, w) && n <= |grouped|
    ensures IsGrid(r.g, h, w)
  {
    if n == 0 then Merge(g, false)
    else
      var m0 := MergeResult(g, grouped, n - 1, limit, h, w);
      var r := GroupResult(m0.g, grouped, n - 1, limit, h, w);
      Merge(r.g, m0.modified || r.modified)
  }

  /**
   * A small particle in removalProcess (src/particleRemoval.js:493-507): all its visited
   * pixels take the colour of the major neighbour of its neighbour set, when there is
   * one and its colour differs from that of the start pixel c.
   */
  ghost function SmallResult(g: seq<seq<Pixel>>, visited: seq<Coord>, neighbours: seq<Coord>, c: Coord, h: int, w: int): (r: Merge)
    requires IsGrid(g, h, w) && AllInRange(visited, h, w) && InRange(c, h, w)
    ensures IsGrid(r.g, h, w)
  {
    var major := Major(g, neighbours);
    if Repaints(g, major.0, major.1, g[c.y][c.x])
    then
      InRangeOnBoard(g, visited, h, w);
      PaintGrid(g, visited, ColourAt(g, major.0.value), h, w);
      Merge(PaintCells(g, visited, ColourAt(g, major.0.value)), true)
    else Merge(g, false)
  }

  /** SmallResult, given any answer of getMajorNeighbour and the repaint it leads to. */
  lemma SmallOutcome(g: seq<seq<Pixel>>, g1: seq<seq<Pixel>>, visited: seq<Coord>, neighbours: seq<Coord>, c: Coord, h: int, w: int,
                     neighbour: Option<Coord>, count: nat, repainted: bool)
    requires IsGrid(g, h, w) && AllInRange(visited, h, w) && InRange(c, h, w)
    requires IsMajor(g, neighbours, neighbour, count)
    requires Repainted(g, g1, visited, c, neighbour, count, repainted)
    ensures Merge(g1, repainted) == SmallResult(g, visited, neighbours, c, h, w)
  {
    MajorSpec(g, neighbours);
    MajorDeterministic(g, neighbours, neighbour, count, Major(g, neighbours).0, Major(g, neighbours).1);
  }

  /**
   * removeExceedingRow at (x, y): a pixel that differs from both vertical or both
   * horizontal neighbours takes the colour of the major neighbour among its
   * 4-neighbours of a different colour.
   */
  ghost function ExceedAt(g: seq<seq<Pixel>>, x: int, y: int, h: int, w: int): (r: seq<seq<Pixel>>)
    requires IsGrid(g, h, w) && InRange(Coord(x, y), h, w)
    ensures IsGrid(r, h, w)
  {
    if !Exceeds(g, x, y) then g
    else
      var major := Major(g, DifferingNeighbours(g, x, y));
      if Repaints(g, major.0, major.1, g[y][x])
      then
        PaintGrid(g, [Coord(x, y)], ColourAt(g, major.0.value), h, w);
        PaintCells(g, [Coord(x, y)], ColourAt(g, major.0.value))
      else g
  }

  /** removeExceedingRow at the first j pixels of row y, left to right. */
  ghost function ExceedCols(g: seq<seq<Pixel>>, y: int, j: nat, h: int, w: int): (r: seq<seq<Pixel>>)
    requires IsGrid(g, h, w) && 0 <= y < h && j <= w
    ensures IsGrid(r, h, w)
  {
    if j == 0 then g else ExceedAt(ExceedCols(g, y, j - 1, h, w), j - 1, y, h, w)
  }

  /** removeExceedingRow at every pixel of the first i rows, in row-major order. */
  ghost function ExceedRows(g: seq<seq<Pixel>>, i: nat, h: int, w: int): (r: seq<seq<Pixel>>)
    requires IsGrid(g, h, w) && i <= h && w >= 0
    ensures IsGrid(r, h, w)
  {
    if i == 0 then g else ExceedCols(ExceedRows(g, i - 1, h, w), i - 1, w, h, w)
  }
}
