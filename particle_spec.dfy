/**
 * Specification functions for the repaint steps of the particle cleaner
 * (src/particleRemoval.js): what a repaint writes, which colours can appear, which
 * runs of a row mergeNarrowPart looks at, the rounded square root of the size
 * limit, and the test of removeExceedingRow.
 */
module ParticleSpec {
  import opened Helper
  import opened MajorNeighbour
  import opened Neighbourhood

  // ---------------------------------------------------------------------------
  // Colours and repainting
  // ---------------------------------------------------------------------------

  /** The colours present in a grid. */
  function PaletteOf(g: seq<seq<Pixel>>): set<Pixel>
  {
    set i, j | 0 <= i < |g| && 0 <= j < |g[i]| :: g[i][j]
  }

  /** Every cell of cells set to col, in order. */
  function PaintCells(g: seq<seq<Pixel>>, cells: seq<Coord>, col: Pixel): (r: seq<seq<Pixel>>)
    requires AllOnBoard(g, cells)
    ensures |r| == |g| && forall i :: 0 <= i < |g| ==> |r[i]| == |g[i]|
  {
    if cells == [] then g
    else
      var r0 := PaintCells(g, cells[..|cells| - 1], col);
      var c := cells[|cells| - 1];
      r0[c.y := r0[c.y][c.x := col]]
  }

  /** After painting, a cell holds col exactly when it is one of the cells; the others keep their colour. */
  lemma {:induction false} PaintCellsAt(g: seq<seq<Pixel>>, cells: seq<Coord>, col: Pixel, i: int, j: int)
    requires AllOnBoard(g, cells) && 0 <= i < |g| && 0 <= j < |g[i]|
    ensures PaintCells(g, cells, col)[i][j] == if Coord(j, i) in cells then col else g[i][j]
  {
    if cells != [] {
      var n := |cells| - 1;
      PaintCellsAt(g, cells[..n], col, i, j);
      assert Coord(j, i) in cells <==> Coord(j, i) in cells[..n] || cells[n] == Coord(j, i) by {
        assert cells == cells[..n] + [cells[n]];
      }
    }
  }

  /** Painting one cell is one update of the grid. */
  lemma PaintOne(g: seq<seq<Pixel>>, c: Coord, col: Pixel)
    requires OnBoard(g, c)
    ensures AllOnBoard(g, [c]) && PaintCells(g, [c], col) == g[c.y := g[c.y][c.x := col]]
  {
    assert [c][..0] == [];
  }

  /** Painting with a colour of the grid adds no colour. */
  lemma PaintCellsPalette(g: seq<seq<Pixel>>, cells: seq<Coord>, col: Pixel)
    requires AllOnBoard(g, cells) && col in PaletteOf(g)
    ensures PaletteOf(PaintCells(g, cells, col)) <= PaletteOf(g)
  {
    var r := PaintCells(g, cells, col);
    forall p | p in PaletteOf(r)
      ensures p in PaletteOf(g)
    {
      var i, j :| 0 <= i < |r| && 0 <= j < |r[i]| && r[i][j] == p;
      PaintCellsAt(g, cells, col, i, j);
    }
  }

  /** Only cells in S differ between g0 and g. */
  predicate ChangedOnly(g0: seq<seq<Pixel>>, g: seq<seq<Pixel>>, S: set<Coord>)
  {
    forall i, j :: 0 <= i < |g0| && 0 <= j < |g0[i]| && i < |g| && j < |g[i]| && g[i][j] != g0[i][j] ==> Coord(j, i) in S
  }

  lemma PaintCellsChanged(g: seq<seq<Pixel>>, cells: seq<Coord>, col: Pixel)
    requires AllOnBoard(g, cells)
    ensures ChangedOnly(g, PaintCells(g, cells, col), set k | 0 <= k < |cells| :: cells[k])
  {
    var r := PaintCells(g, cells, col);
    forall i, j | 0 <= i < |g| && 0 <= j < |g[i]| && r[i][j] != g[i][j]
      ensures Coord(j, i) in set k | 0 <= k < |cells| :: cells[k]
    {
      PaintCellsAt(g, cells, col, i, j);
      var k :| 0 <= k < |cells| && cells[k] == Coord(j, i);
    }
  }

  // ---------------------------------------------------------------------------
  // Set.add over a list
  // ---------------------------------------------------------------------------

  // ---------------------------------------------------------------------------
  // The runs of a row that mergeNarrowPart processes
  // ---------------------------------------------------------------------------

  /** The pixels (x, y) for the xs of one row. */
  function RowCells(xs: seq<int>, y: int): (r: seq<Coord>)
    ensures |r| == |xs| && forall t :: 0 <= t < |xs| ==> r[t] == Coord(xs[t], y)
  {
    seq(|xs|, t requires 0 <= t < |xs| => Coord(xs[t], y))
  }

  predicate Increasing(xs: seq<int>)
  {
    forall i, j :: 0 <= i < j < |xs| ==> xs[i] < xs[j]
  }

  /** x continues the last run when it is one more than that run's last element. */
  function ExtendRun(r0: seq<seq<int>>, x: int): (r: seq<seq<int>>)
    ensures r != []
  {
    if r0 != [] && r0[|r0| - 1] != [] && x == r0[|r0| - 1][|r0[|r0| - 1]| - 1] + 1
    then r0[..|r0| - 1] + [r0[|r0| - 1] + [x]]
    else r0 + [[x]]
  }

  /** xs cut into maximal runs of consecutive integers. */
  function MaxRuns(xs: seq<int>): (r: seq<seq<int>>)
    ensures xs == [] <==> r == []
  {
    if xs == [] then [] else ExtendRun(MaxRuns(xs[..|xs| - 1]), xs[|xs| - 1])
  }

  /**
   * The runs mergeNarrowPart hands on for a row of two or more pixels: all maximal runs,
   * except that a final run of one pixel after a gap is dropped, because the scan
   * closes the previous run at the last index and discards the new one.
   */
  function ScannedRuns(xs: seq<int>): seq<seq<int>>
    requires |xs| >= 2
  {
    var rs := MaxRuns(xs);
    if |rs[|rs| - 1]| == 1 then rs[..|rs| - 1] else rs
  }

  function Flat(rs: seq<seq<int>>): seq<int>
  {
    if rs == [] then [] else Flat(rs[..|rs| - 1]) + rs[|rs| - 1]
  }

  lemma FlatAppend(rs: seq<seq<int>>, x: seq<int>)
    ensures Flat(rs + [x]) == Flat(rs) + x
  {
    assert (rs + [x])[..|rs|] == rs;
  }

  lemma ExtendRunFlat(r0: seq<seq<int>>, x: int)
    ensures Flat(ExtendRun(r0, x)) == Flat(r0) + [x]
  {
    if r0 != [] && r0[|r0| - 1] != [] && x == r0[|r0| - 1][|r0[|r0| - 1]| - 1] + 1 {
      var front := r0[..|r0| - 1];
      assert r0 == front + [r0[|r0| - 1]];
      FlatAppend(front, r0[|r0| - 1] + [x]);
      FlatAppend(front, r0[|r0| - 1]);
    } else {
      FlatAppend(r0, [x]);
    }
  }

  /** The maximal runs put back together give xs. */
  lemma {:induction false} MaxRunsFlat(xs: seq<int>)
    ensures Flat(MaxRuns(xs)) == xs
  {
    if xs != [] {
      MaxRunsFlat(xs[..|xs| - 1]);
      ExtendRunFlat(MaxRuns(xs[..|xs| - 1]), xs[|xs| - 1]);
    }
  }

  /** Inside a run each element is one more than the previous; between runs it is not. */
  predicate Consecutive(rs: seq<seq<int>>)
  {
    && (forall k :: 0 <= k < |rs| ==> |rs[k]| > 0)
    && (forall k, t :: 0 <= k < |rs| && 0 < t < |rs[k]| ==> rs[k][t] == rs[k][t - 1] + 1)
    && (forall k :: 0 < k < |rs| ==> rs[k][0] != rs[k - 1][|rs[k - 1]| - 1] + 1)
  }

  lemma ExtendRunConsecutive(r0: seq<seq<int>>, x: int)
    requires Consecutive(r0)
    ensures Consecutive(ExtendRun(r0, x))
  {
    if r0 != [] && r0[|r0| - 1] != [] && x == r0[|r0| - 1][|r0[|r0| - 1]| - 1] + 1 {
      GrowLastConsecutive(r0, x);
    } else {
      NewRunConsecutive(r0, x);
    }
  }

  /** x continues the last run: that run grows by one. */
  lemma GrowLastConsecutive(r0: seq<seq<int>>, x: int)
    requires Consecutive(r0) && r0 != [] && r0[|r0| - 1] != []
    requires x == r0[|r0| - 1][|r0[|r0| - 1]| - 1] + 1
    ensures Consecutive(r0[..|r0| - 1] + [r0[|r0| - 1] + [x]])
  {
    var r := r0[..|r0| - 1] + [r0[|r0| - 1] + [x]];
    forall k, t | 0 <= k < |r| && 0 < t < |r[k]|
      ensures r[k][t] == r[k][t - 1] + 1
    {
      if k < |r0| - 1 {
        assert r[k] == r0[k];
      }
    }
    forall k | 0 < k < |r|
      ensures r[k][0] != r[k - 1][|r[k - 1]| - 1] + 1
    {
      assert r[k - 1] == r0[k - 1];
      assert r[k][0] == r0[k][0];
    }
  }

  /** x does not continue the last run: it starts a run of its own. */
  lemma NewRunConsecutive(r0: seq<seq<int>>, x: int)
    requires Consecutive(r0)
    requires r0 == [] || r0[|r0| - 1] == [] || x != r0[|r0| - 1][|r0[|r0| - 1]| - 1] + 1
    ensures Consecutive(r0 + [[x]])
  {
    var r := r0 + [[x]];
    forall k | 0 < k < |r|
      ensures r[k][0] != r[k - 1][|r[k - 1]| - 1] + 1
    {
      assert r[k - 1] == r0[k - 1];
      if k < |r0| {
        assert r[k] == r0[k];
      }
    }
  }

  /** MaxRuns cuts xs exactly where consecutive elements are not one apart. */
  lemma {:induction false} MaxRunsConsecutive(xs: seq<int>)
    ensures Consecutive(MaxRuns(xs))
  {
    if xs != [] {
      MaxRunsConsecutive(xs[..|xs| - 1]);
      ExtendRunConsecutive(MaxRuns(xs[..|xs| - 1]), xs[|xs| - 1]);
    }
  }

  /** The runs before a final gap-separated pixel are the runs of the prefix. */
  lemma MaxRunsLoneLast(xs: seq<int>)
    requires |xs| >= 2 && xs[|xs| - 1] != xs[|xs| - 2] + 1
    ensures |MaxRuns(xs)[|MaxRuns(xs)| - 1]| == 1
    ensures ScannedRuns(xs) == MaxRuns(xs[..|xs| - 1])
  {
    var p := xs[..|xs| - 1];
    var x := xs[|xs| - 1];
    var r0 := MaxRuns(p);
    assert MaxRuns(xs) == ExtendRun(r0, x);
    MaxRunsFlat(p);
    MaxRunsConsecutive(p);
    assert r0 != [] && r0[|r0| - 1] != [];
    hide MaxRuns, Consecutive;
    LastOfFlat(r0);
    assert r0[|r0| - 1][|r0[|r0| - 1]| - 1] == xs[|xs| - 2];
    var r := r0 + [[x]];
    assert MaxRuns(xs) == r;
    assert r[..|r| - 1] == r0;
  }

  /** The last element of the flattening is the last element of the last run. */
  lemma LastOfFlat(rs: seq<seq<int>>)
    requires rs != [] && rs[|rs| - 1] != []
    ensures |Flat(rs)| > 0 && Flat(rs)[|Flat(rs)| - 1] == rs[|rs| - 1][|rs[|rs| - 1]| - 1]
  {
  }

  // ---------------------------------------------------------------------------
  // Math.round(Math.sqrt(n))
  // ---------------------------------------------------------------------------

  /** r is the integer nearest to the square root of n (no square root lies halfway). */
  predicate IsRoundSqrt(n: nat, r: nat)
  {
    (r == 0 || (2 * r - 1) * (2 * r - 1) < 4 * n) && 4 * n < (2 * r + 1) * (2 * r + 1)
  }

  function RoundSqrtFrom(n: nat, r: nat): (s: nat)
    requires r == 0 || (2 * r - 1) * (2 * r - 1) < 4 * n
    ensures IsRoundSqrt(n, s)
    decreases n - r
  {
    if 4 * n < (2 * r + 1) * (2 * r + 1) then r
    else
      SquareBelow(n, r);
      RoundSqrtFrom(n, r + 1)
  }

  /** An odd square below 4n is strictly below it, and then r < n. */
  lemma SquareBelow(n: nat, r: nat)
    requires (2 * r + 1) * (2 * r + 1) <= 4 * n
    ensures r < n && (2 * (r + 1) - 1) * (2 * (r + 1) - 1) < 4 * n
  {
    var m := r * r + r;
    assert (2 * r + 1) * (2 * r + 1) == 4 * m + 1;
    assert 2 * (r + 1) - 1 == 2 * r + 1;
  }

  lemma MulMono(a: nat, b: nat)
    requires a <= b
    ensures a * a <= b * b
  {
  }

  function RoundSqrt(n: nat): (r: nat)
    ensures IsRoundSqrt(n, r)
  {
    RoundSqrtFrom(n, 0)
  }

  /** The rounded square root is unique. */
  lemma RoundSqrtUnique(n: nat, r1: nat, r2: nat)
    requires IsRoundSqrt(n, r1) && IsRoundSqrt(n, r2)
    ensures r1 == r2
  {
    if r1 < r2 {
      MulMono(2 * r1 + 1, 2 * r2 - 1);
    } else if r2 < r1 {
      MulMono(2 * r2 + 1, 2 * r1 - 1);
    }
  }

  // ---------------------------------------------------------------------------
  // mergeNarrowPart: the runs it merges and what their neighbours are
  // ---------------------------------------------------------------------------

  /**
   * A run of row y is merged only when it is shorter than limit and both of its
   * outer pixels exist and differ from the run's first and last pixel.
   */
  predicate NarrowRun(g: seq<seq<Pixel>>, y: int, run: seq<int>, limit: int)
    requires 0 <= y < |g| && |run| > 0
    requires forall t :: 0 <= t < |run| ==> 0 <= run[t] < |g[y]|
  {
    && |run| < limit
    && run[0] - 1 >= 0
    && run[|run| - 1] + 1 < |g[y]|
    && g[y][run[0] - 1] != g[y][run[0]]
    && g[y][run[|run| - 1] + 1] != g[y][run[|run| - 1]]
  }

  /** The groups above and below group k, added to the excluded set. */
  function ExcludedRows(grouped: seq<seq<Coord>>, k: nat): seq<Coord>
    requires k < |grouped|
  {
    AddAll(AddAll([], if k >= 1 then grouped[k - 1] else []), if k + 1 < |grouped| then grouped[k + 1] else [])
  }

  /** The neighbour set built for a run of row y inside group k. */
  function RunNeighbours(grouped: seq<seq<Coord>>, k: nat, y: int, run: seq<int>, h: int, w: int): seq<Coord>
    requires k < |grouped|
  {
    var vis := AddAll([], RowCells(run, y));
    Spread([], vis, vis, ExcludedRows(grouped, k), h, w)
  }

  // ---------------------------------------------------------------------------
  // removeExceedingRow
  // ---------------------------------------------------------------------------

  /** (x, y) differs from both vertical neighbours, or from both horizontal ones. */
  predicate Exceeds(g: seq<seq<Pixel>>, x: int, y: int)
    requires 0 <= y < |g| && 0 <= x < |g[y]| && Rectangular(g, |g[y]|)
  {
    (y - 1 >= 0 && y + 1 < |g| && g[y - 1][x] != g[y][x] && g[y + 1][x] != g[y][x])
    || (x - 1 >= 0 && x + 1 < |g[y]| && g[y][x - 1] != g[y][x] && g[y][x + 1] != g[y][x])
  }

  /** The 4-neighbours of (x, y) of another colour: top, bottom, left, right. */
  function DifferingNeighbours(g: seq<seq<Pixel>>, x: int, y: int): (r: seq<Coord>)
    requires 0 <= y < |g| && 0 <= x < |g[y]| && Rectangular(g, |g[y]|)
    ensures AllOnBoard(g, r) && Distinct(r)
    ensures forall k :: 0 <= k < |r| ==> Adjacent4(r[k], Coord(x, y)) && ColourAt(g, r[k]) != g[y][x]
  {
    var top := if y - 1 >= 0 && g[y - 1][x] != g[y][x] then [Coord(x, y - 1)] else [];
    var bottom := if y + 1 < |g| && g[y + 1][x] != g[y][x] then [Coord(x, y + 1)] else [];
    var left := if x - 1 >= 0 && g[y][x - 1] != g[y][x] then [Coord(x - 1, y)] else [];
    var right := if x + 1 < |g[y]| && g[y][x + 1] != g[y][x] then [Coord(x + 1, y)] else [];
    SideDiffers(g, x, y, top, Coord(x, y - 1), y - 1 >= 0 && g[y - 1][x] != g[y][x]);
    SideDiffers(g, x, y, bottom, Coord(x, y + 1), y + 1 < |g| && g[y + 1][x] != g[y][x]);
    SideDiffers(g, x, y, left, Coord(x - 1, y), x - 1 >= 0 && g[y][x - 1] != g[y][x]);
    SideDiffers(g, x, y, right, Coord(x + 1, y), x + 1 < |g[y]| && g[y][x + 1] != g[y][x]);
    SidesDiffer(g, x, y, top, bottom, left, right);
    top + bottom + left + right
  }

  /** c is a 4-neighbour of (x, y) on the grid with another colour. */
  predicate Differs(g: seq<seq<Pixel>>, x: int, y: int, c: Coord)
    requires 0 <= y < |g| && 0 <= x < |g[y]|
  {
    OnBoard(g, c) && Adjacent4(c, Coord(x, y)) && ColourAt(g, c) != g[y][x]
  }

  lemma SidesDiffer(g: seq<seq<Pixel>>, x: int, y: int, top: seq<Coord>, bottom: seq<Coord>, left: seq<Coord>, right: seq<Coord>)
    requires 0 <= y < |g| && 0 <= x < |g[y]|
    requires |top| <= 1 && forall e :: e in top ==> e == Coord(x, y - 1) && Differs(g, x, y, e)
    requires |bottom| <= 1 && forall e :: e in bottom ==> e == Coord(x, y + 1) && Differs(g, x, y, e)
    requires |left| <= 1 && forall e :: e in left ==> e == Coord(x - 1, y) && Differs(g, x, y, e)
    requires |right| <= 1 && forall e :: e in right ==> e == Coord(x + 1, y) && Differs(g, x, y, e)
    ensures var r := top + bottom + left + right;
      && AllOnBoard(g, r) && Distinct(r)
      && forall k :: 0 <= k < |r| ==> Adjacent4(r[k], Coord(x, y)) && ColourAt(g, r[k]) != g[y][x]
  {
    hide Differs;
    var s1 := top + bottom;
    DistinctConcat(top, bottom);
    assert forall c :: c in s1 ==> c.x == x && c.y != y;
    var s2 := s1 + left;
    DistinctConcat(s1, left);
    assert forall c :: c in s2 ==> c.x <= x;
    var r := s2 + right;
    DistinctConcat(s2, right);
    DiffersAll(g, x, y, r);
  }

  /** One side's list holds at most its own candidate, and only when that candidate differs. */
  lemma SideDiffers(g: seq<seq<Pixel>>, x: int, y: int, side: seq<Coord>, c: Coord, cond: bool)
    requires 0 <= y < |g| && 0 <= x < |g[y]|
    requires cond ==> OnBoard(g, c) && Adjacent4(c, Coord(x, y)) && g[c.y][c.x] != g[y][x]
    requires side == if cond then [c] else []
    ensures |side| <= 1 && forall e :: e in side ==> e == c && Differs(g, x, y, e)
  {
  }

  lemma DiffersAll(g: seq<seq<Pixel>>, x: int, y: int, r: seq<Coord>)
    requires 0 <= y < |g| && 0 <= x < |g[y]|
    requires forall c :: c in r ==> Differs(g, x, y, c)
    ensures AllOnBoard(g, r)
    ensures forall k :: 0 <= k < |r| ==> Adjacent4(r[k], Coord(x, y)) && ColourAt(g, r[k]) != g[y][x]
  {
    forall k | 0 <= k < |r|
      ensures OnBoard(g, r[k]) && Adjacent4(r[k], Coord(x, y)) && ColourAt(g, r[k]) != g[y][x]
    {
      assert r[k] in r;
    }
  }

  lemma DistinctConcat<T>(s: seq<T>, t: seq<T>)
    requires Distinct(s) && Distinct(t)
    requires forall c :: c in s ==> c !in t
    ensures Distinct(s + t)
  {
    forall i, j | 0 <= i < j < |s + t|
      ensures (s + t)[i] != (s + t)[j]
    {
      if i < |s| && |s| <= j {
        assert (s + t)[i] in s && (s + t)[j] in t;
      }
    }
  }

  /** DifferingNeighbours from the four tests, one per side. */
  lemma DifferingNeighboursParts(g: seq<seq<Pixel>>, x: int, y: int, top: bool, bottom: bool, left: bool, right: bool)
    requires 0 <= y < |g| && 0 <= x < |g[y]| && Rectangular(g, |g[y]|)
    requires top == (y - 1 >= 0 && g[y - 1][x] != g[y][x])
    requires bottom == (y + 1 < |g| && g[y + 1][x] != g[y][x])
    requires left == (x - 1 >= 0 && g[y][x - 1] != g[y][x])
    requires right == (x + 1 < |g[y]| && g[y][x + 1] != g[y][x])
    ensures DifferingNeighbours(g, x, y) ==
      (if top then [Coord(x, y - 1)] else []) + (if bottom then [Coord(x, y + 1)] else [])
      + (if left then [Coord(x - 1, y)] else []) + (if right then [Coord(x + 1, y)] else [])
  {
  }
}
