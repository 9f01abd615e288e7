/**
 * What the particle cleaner (src/particleRemoval.js) promises about the grid: the
 * groups it merges are proper rows, no repaint ever introduces a colour, a small
 * particle is repainted exactly on its visited pixels, a narrow-run merge touches only
 * the particle's own pixels, and removeExceedingRow changes one pixel, exactly when it
 * is a spur, to the colour of a differing 4-neighbour.
 */
module ParticleProps {
  import opened Helper
  import opened MajorNeighbour
  import opened Neighbourhood
  import opened ParticleSpec
  import opened RemovalSpec
  import PixelRows

  // ---------------------------------------------------------------------------
  // Distinct coordinates
  // ---------------------------------------------------------------------------

  lemma {:induction false} DistinctCount<T>(s: seq<T>, x: T)
    requires Distinct(s)
    ensures multiset(s)[x] <= 1
  {
    if s != [] {
      var n := |s| - 1;
      assert s == s[..n] + [s[n]];
      DistinctCount(s[..n], x);
      if s[n] == x {
        assert x !in s[..n];
      }
    }
  }

  lemma RepeatCount<T>(s: seq<T>, i: nat, j: nat)
    requires i < j < |s|
    ensures s[i] == s[j] ==> multiset(s)[s[i]] >= 2
  {
    assert s == s[..j] + [s[j]] + s[j + 1..];
    assert s[i] in s[..j];
  }

  /** A permutation of a sequence without repeats has none either. */
  lemma PermutationDistinct<T>(a: seq<T>, b: seq<T>)
    requires multiset(a) == multiset(b) && Distinct(a)
    ensures Distinct(b)
  {
    forall i, j | 0 <= i < j < |b|
      ensures b[i] != b[j]
    {
      RepeatCount(b, i, j);
      DistinctCount(a, b[i]);
    }
  }

  lemma DistinctSplit<T>(a: seq<T>, b: seq<T>)
    requires Distinct(a + b)
    ensures Distinct(a) && Distinct(b)
  {
    forall i, j | 0 <= i < j < |b|
      ensures b[i] != b[j]
    {
      assert (a + b)[|a| + i] == b[i] && (a + b)[|a| + j] == b[j];
    }
    forall i, j | 0 <= i < j < |a|
      ensures a[i] != a[j]
    {
      assert (a + b)[i] == a[i] && (a + b)[j] == a[j];
    }
  }

  lemma {:induction false} ConcatHas(rs: seq<seq<Coord>>, k: nat, t: nat)
    requires k < |rs| && t < |rs[k]|
    ensures rs[k][t] in PixelRows.Concat(rs)
  {
    var n := |rs| - 1;
    if k < n {
      ConcatHas(rs[..n], k, t);
      assert rs[..n][k] == rs[k];
    }
  }

  lemma {:induction false} ConcatDistinctParts(rs: seq<seq<Coord>>, k: nat)
    requires k < |rs| && Distinct(PixelRows.Concat(rs))
    ensures Distinct(rs[k])
  {
    var n := |rs| - 1;
    DistinctSplit(PixelRows.Concat(rs[..n]), rs[n]);
    if k < n {
      ConcatDistinctParts(rs[..n], k);
      assert rs[..n][k] == rs[k];
    }
  }

  /**
   * Grouping the distinct on-grid pixels of a particle by row gives groups that lie on
   * one row of the grid each, with x strictly increasing.
   */
  lemma GroupRowsAreRowGroups(visited: seq<Coord>, h: int, w: int)
    requires Distinct(visited) && AllInRange(visited, h, w)
    ensures RowGroups(PixelRows.GroupRows(visited), h, w)
  {
    var rows := PixelRows.GroupRows(visited);
    PixelRows.GroupRowsSpec(visited);
    PermutationDistinct(visited, PixelRows.Concat(rows));
    forall k | 0 <= k < |rows|
      ensures RowGroup(rows[k], h, w)
    {
      var grp := rows[k];
      ConcatDistinctParts(rows, k);
      forall t | 0 <= t < |grp|
        ensures InRange(grp[t], h, w) && grp[t].y == grp[0].y
      {
        ConcatHas(rows, k, t);
        assert grp[t] in multiset(visited);
        var m :| 0 <= m < |visited| && visited[m] == grp[t];
      }
      forall a, b | 0 <= a < b < |grp|
        ensures Xs(grp)[a] < Xs(grp)[b]
      {
        assert PixelRows.X(grp[a]) <= PixelRows.X(grp[b]);
        assert grp[a] != grp[b];
      }
    }
  }

  // ---------------------------------------------------------------------------
  // No repaint introduces a colour
  // ---------------------------------------------------------------------------

  lemma ColourInPalette(g: seq<seq<Pixel>>, s: seq<Coord>, c: Coord, h: int, w: int)
    requires IsGrid(g, h, w) && AllInRange(s, h, w) && c in s
    ensures ColourAt(g, c) in PaletteOf(g)
  {
    var m :| 0 <= m < |s| && s[m] == c;
    assert InRange(c, h, w);
    assert g[c.y][c.x] in PaletteOf(g);
  }

  /** The major neighbour of on-grid coordinates has a colour of the grid. */
  lemma MajorInPalette(g: seq<seq<Pixel>>, s: seq<Coord>, h: int, w: int)
    requires IsGrid(g, h, w) && AllInRange(s, h, w)
    ensures Major(g, s).0.Some? ==> ColourAt(g, Major(g, s).0.value) in PaletteOf(g)
  {
    if Major(g, s).0.Some? {
      MajorSpec(g, s);
      MajorIn(g, s, Major(g, s).0, Major(g, s).1);
      ColourInPalette(g, s, Major(g, s).0.value, h, w);
    }
  }

  lemma RunPalette(g: seq<seq<Pixel>>, grouped: seq<seq<Coord>>, k: nat, y: int, run: seq<int>, limit: int, h: int, w: int)
    requires IsGrid(g, h, w) && k < |grouped| && 0 <= y < h && |run| > 0
    requires forall t :: 0 <= t < |run| ==> 0 <= run[t] < w
    ensures PaletteOf(RunResult(g, grouped, k, y, run, limit, h, w).g) <= PaletteOf(g)
  {
    if NarrowRun(g, y, run, limit) {
      var nb := RunNeighbours(grouped, k, y, run, h, w);
      if Repaints(g, Major(g, nb).0, Major(g, nb).1, g[y][run[0]]) {
        RunNeighboursInRange(grouped, k, y, run, h, w);
        MajorInPalette(g, nb, h, w);
        RowCellsOnBoard(g, run, y, h, w);
        PaintCellsPalette(g, RowCells(run, y), ColourAt(g, Major(g, nb).0.value));
      }
    }
  }

  lemma {:induction false} RunsPalette(g: seq<seq<Pixel>>, grouped: seq<seq<Coord>>, k: nat, y: int, runs: seq<seq<int>>, limit: int, h: int, w: int)
    requires IsGrid(g, h, w) && k < |grouped| && 0 <= y < h && RunsIn(runs, w)
    ensures PaletteOf(RunsResult(g, grouped, k, y, runs, limit, h, w).g) <= PaletteOf(g)
  {
    if runs != [] {
      var n := |runs| - 1;
      RunsPalette(g, grouped, k, y, runs[..n], limit, h, w);
      RunPalette(RunsResult(g, grouped, k, y, runs[..n], limit, h, w).g, grouped, k, y, runs[n], limit, h, w);
    }
  }

  /** The neighbours of a single pixel lie on the grid. */
  lemma SingleSpreadInRange(c: Coord, h: int, w: int)
    requires InRange(c, h, w)
    ensures AllInRange(Spread([], [c], [c], [], h, w), h, w)
  {
    SpreadInRange([], [c], [c], [], h, w);
  }

  lemma PaintOnePalette(g: seq<seq<Pixel>>, c: Coord, col: Pixel, h: int, w: int)
    requires IsGrid(g, h, w) && InRange(c, h, w) && col in PaletteOf(g)
    ensures AllOnBoard(g, [c]) && PaletteOf(PaintCells(g, [c], col)) <= PaletteOf(g)
  {
    PaintCellsPalette(g, [c], col);
  }

  lemma SinglePalette(g: seq<seq<Pixel>>, c: Coord, h: int, w: int)
    requires IsGrid(g, h, w) && InRange(c, h, w)
    ensures PaletteOf(SingleResult(g, c, h, w).g) <= PaletteOf(g)
  {
    var s := Spread([], [c], [c], [], h, w);
    if Repaints(g, Major(g, s).0, Major(g, s).1, g[c.y][c.x]) {
      SingleSpreadInRange(c, h, w);
      MajorInPalette(g, s, h, w);
      PaintOnePalette(g, c, ColourAt(g, Major(g, s).0.value), h, w);
    }
  }

  lemma GroupPalette(g: seq<seq<Pixel>>, grouped: seq<seq<Coord>>, k: nat, limit: int, h: int, w: int)
    requires IsGrid(g, h, w) && RowGroups(grouped, h, w) && k < |grouped|
    ensures PaletteOf(GroupResult(g, grouped, k, limit, h, w).g) <= PaletteOf(g)
  {
    hide RunsResult, SingleResult;
    var group := grouped[k];
    assert RowGroup(group, h, w);
    if |group| > 1 {
      ScannedRunsIn(group, h, w);
      RunsPalette(g, grouped, k, group[0].y, ScannedRuns(Xs(group)), limit, h, w);
    } else {
      SinglePalette(g, group[0], h, w);
    }
  }

  /** mergeNarrowPart only paints colours that are already in the grid. */
  lemma {:induction false} MergePalette(g: seq<seq<Pixel>>, grouped: seq<seq<Coord>>, n: nat, limit: int, h: int, w: int)
    requires IsGrid(g, h, w) && RowGroups(grouped, h, w) && n <= |grouped|
    ensures PaletteOf(MergeResult(g, grouped, n, limit, h, w).g) <= PaletteOf(g)
  {
    hide GroupResult;
    if n > 0 {
      MergePalette(g, grouped, n - 1, limit, h, w);
      GroupPalette(MergeResult(g, grouped, n - 1, limit, h, w).g, grouped, n - 1, limit, h, w);
    }
  }

  /** The small-particle repaint only paints a colour that is already in the grid. */
  lemma SmallPalette(g: seq<seq<Pixel>>, visited: seq<Coord>, neighbours: seq<Coord>, c: Coord, h: int, w: int)
    requires IsGrid(g, h, w) && AllInRange(visited, h, w) && InRange(c, h, w) && AllInRange(neighbours, h, w)
    ensures PaletteOf(SmallResult(g, visited, neighbours, c, h, w).g) <= PaletteOf(g)
  {
    if Repaints(g, Major(g, neighbours).0, Major(g, neighbours).1, g[c.y][c.x]) {
      InRangeOnBoard(g, visited, h, w);
      MajorInPalette(g, neighbours, h, w);
      PaintCellsPalette(g, visited, ColourAt(g, Major(g, neighbours).0.value));
    }
  }

  // ---------------------------------------------------------------------------
  // Which pixels a repaint touches
  // ---------------------------------------------------------------------------

  /** Between g0 and g, only pixels listed in cells differ. */
  predicate ChangedWithin(g0: seq<seq<Pixel>>, g: seq<seq<Pixel>>, cells: seq<Coord>)
  {
    forall i, j :: 0 <= i < |g0| && 0 <= j < |g0[i]| && i < |g| && j < |g[i]| && g[i][j] != g0[i][j] ==> Coord(j, i) in cells
  }

  /** One run of mergeNarrowPart changes the pixel (j, i) only when it belongs to the run. */
  lemma RunAt(g: seq<seq<Pixel>>, grouped: seq<seq<Coord>>, k: nat, y: int, run: seq<int>, limit: int, h: int, w: int, i: int, j: int)
    requires IsGrid(g, h, w) && k < |grouped| && 0 <= y < h && |run| > 0
    requires forall t :: 0 <= t < |run| ==> 0 <= run[t] < w
    requires 0 <= i < h && 0 <= j < w
    ensures RunResult(g, grouped, k, y, run, limit, h, w).g[i][j] != g[i][j] ==> Coord(j, i) in RowCells(run, y)
  {
    var r := RunResult(g, grouped, k, y, run, limit, h, w);
    if r.modified {
      RunRepaint(g, grouped, k, y, run, limit, h, w);
      hide RunResult, PaintCells, Major, RunNeighbours;
      var nb := RunNeighbours(grouped, k, y, run, h, w);
      PaintCellsAt(g, RowCells(run, y), ColourAt(g, Major(g, nb).0.value), i, j);
    }
  }

  /** A repainted run is the run's cells painted with its major neighbour's colour. */
  lemma RunRepaint(g: seq<seq<Pixel>>, grouped: seq<seq<Coord>>, k: nat, y: int, run: seq<int>, limit: int, h: int, w: int)
    requires IsGrid(g, h, w) && k < |grouped| && 0 <= y < h && |run| > 0
    requires forall t :: 0 <= t < |run| ==> 0 <= run[t] < w
    requires RunResult(g, grouped, k, y, run, limit, h, w).modified
    ensures AllOnBoard(g, RowCells(run, y))
    ensures Major(g, RunNeighbours(grouped, k, y, run, h, w)).0.Some?
    ensures RunResult(g, grouped, k, y, run, limit, h, w).g ==
      PaintCells(g, RowCells(run, y), ColourAt(g, Major(g, RunNeighbours(grouped, k, y, run, h, w)).0.value))
  {
    RowCellsOnBoard(g, run, y, h, w);
  }

  /**
   * One run of mergeNarrowPart: it is repainted only when it is narrow, is left as it
   * was otherwise, and when repainted all its pixels take the colour of one neighbour
   * of the run.
   */
  lemma RunChanges(g: seq<seq<Pixel>>, grouped: seq<seq<Coord>>, k: nat, y: int, run: seq<int>, limit: int, h: int, w: int)
    requires IsGrid(g, h, w) && k < |grouped| && 0 <= y < h && |run| > 0
    requires forall t :: 0 <= t < |run| ==> 0 <= run[t] < w
    ensures RunResult(g, grouped, k, y, run, limit, h, w).modified ==> NarrowRun(g, y, run, limit)
    ensures !RunResult(g, grouped, k, y, run, limit, h, w).modified ==> RunResult(g, grouped, k, y, run, limit, h, w).g == g
    ensures RunResult(g, grouped, k, y, run, limit, h, w).modified ==>
      exists n :: n in RunNeighbours(grouped, k, y, run, h, w)
        && forall t :: 0 <= t < |run| ==> RunResult(g, grouped, k, y, run, limit, h, w).g[y][run[t]] == ColourAt(g, n)
  {
    var r := RunResult(g, grouped, k, y, run, limit, h, w);
    if r.modified {
      var nb := RunNeighbours(grouped, k, y, run, h, w);
      var n := Major(g, nb).0.value;
      MajorSpec(g, nb);
      MajorFacts(g, nb, Major(g, nb).0, Major(g, nb).1);
      RowCellsOnBoard(g, run, y, h, w);
      forall t | 0 <= t < |run|
        ensures r.g[y][run[t]] == ColourAt(g, n)
      {
        assert RowCells(run, y)[t] == Coord(run[t], y);
        PaintCellsAt(g, RowCells(run, y), ColourAt(g, n), y, run[t]);
      }
    }
  }

  /** The pixels (x, y) of the runs lie in group. */
  predicate RunsInGroup(runs: seq<seq<int>>, y: int, group: seq<Coord>)
  {
    forall q, t :: 0 <= q < |runs| && 0 <= t < |runs[q]| ==> Coord(runs[q][t], y) in group
  }

  /** The runs of one row change the pixel (j, i) only when it belongs to the group. */
  lemma {:induction false} RunsAt(g: seq<seq<Pixel>>, grouped: seq<seq<Coord>>, k: nat, y: int, runs: seq<seq<int>>, limit: int, h: int, w: int, i: int, j: int)
    requires IsGrid(g, h, w) && k < |grouped| && 0 <= y < h && RunsIn(runs, w) && RunsInGroup(runs, y, grouped[k])
    requires 0 <= i < h && 0 <= j < w
    ensures RunsResult(g, grouped, k, y, runs, limit, h, w).g[i][j] != g[i][j] ==> Coord(j, i) in grouped[k]
  {
    if runs != [] {
      var n := |runs| - 1;
      var m0 := RunsResult(g, grouped, k, y, runs[..n], limit, h, w).g;
      RunsAt(g, grouped, k, y, runs[..n], limit, h, w, i, j);
      RunAt(m0, grouped, k, y, runs[n], limit, h, w, i, j);
      if RunResult(m0, grouped, k, y, runs[n], limit, h, w).g[i][j] != m0[i][j] {
        var t :| 0 <= t < |runs[n]| && RowCells(runs[n], y)[t] == Coord(j, i);
        assert Coord(runs[n][t], y) in grouped[k];
      }
    }
  }

  /** The runs the scan hands on are made of the group's own pixels. */
  lemma ScannedRunsInGroup(group: seq<Coord>, h: int, w: int)
    requires RowGroup(group, h, w) && |group| >= 2
    ensures RunsInGroup(ScannedRuns(Xs(group)), group[0].y, group)
  {
    var xs := Xs(group);
    var rs := MaxRuns(xs);
    MaxRunsMembers(xs, xs);
    forall q, t | 0 <= q < |ScannedRuns(xs)| && 0 <= t < |ScannedRuns(xs)[q]|
      ensures Coord(ScannedRuns(xs)[q][t], group[0].y) in group
    {
      assert ScannedRuns(xs)[q] == rs[q];
      var u :| 0 <= u < |xs| && xs[u] == rs[q][t];
      assert group[u] == Coord(rs[q][t], group[0].y);
    }
  }

  /** Group k of mergeNarrowPart changes the pixel (j, i) only when it belongs to the group. */
  lemma GroupAt(g: seq<seq<Pixel>>, grouped: seq<seq<Coord>>, k: nat, limit: int, h: int, w: int, i: int, j: int)
    requires IsGrid(g, h, w) && RowGroups(grouped, h, w) && k < |grouped|
    requires 0 <= i < h && 0 <= j < w
    ensures GroupResult(g, grouped, k, limit, h, w).g[i][j] != g[i][j] ==> Coord(j, i) in grouped[k]
  {
    hide RunsResult, Major, Spread, PaintCells;
    var group := grouped[k];
    assert RowGroup(group, h, w);
    if |group| > 1 {
      ScannedRunsIn(group, h, w);
      ScannedRunsInGroup(group, h, w);
      RunsAt(g, grouped, k, group[0].y, ScannedRuns(Xs(group)), limit, h, w, i, j);
    } else {
      var s := Spread([], [group[0]], [group[0]], [], h, w);
      if Repaints(g, Major(g, s).0, Major(g, s).1, g[group[0].y][group[0].x]) {
        PaintCellsAt(g, [group[0]], ColourAt(g, Major(g, s).0.value), i, j);
        assert [group[0]] == group;
      }
    }
  }

  /** Every pixel of every group is listed in cells. */
  predicate GroupsListed(grouped: seq<seq<Coord>>, cells: seq<Coord>)
  {
    forall k, c :: 0 <= k < |grouped| && c in grouped[k] ==> c in cells
  }

  /** The first n groups of mergeNarrowPart change the pixel (j, i) only when it is listed in cells. */
  lemma {:induction false} MergeAt(g: seq<seq<Pixel>>, grouped: seq<seq<Coord>>, n: nat, limit: int, h: int, w: int, cells: seq<Coord>, i: int, j: int)
    requires IsGrid(g, h, w) && RowGroups(grouped, h, w) && n <= |grouped| && GroupsListed(grouped, cells)
    requires 0 <= i < h && 0 <= j < w
    ensures MergeResult(g, grouped, n, limit, h, w).g[i][j] != g[i][j] ==> Coord(j, i) in cells
  {
    hide GroupResult;
    if n > 0 {
      var m0 := MergeResult(g, grouped, n - 1, limit, h, w).g;
      MergeAt(g, grouped, n - 1, limit, h, w, cells, i, j);
      GroupAt(m0, grouped, n - 1, limit, h, w, i, j);
      ListedAt(grouped, n - 1, cells, Coord(j, i));
    }
  }

  /** A pixel of group k is listed in cells. */
  lemma ListedAt(grouped: seq<seq<Coord>>, k: nat, cells: seq<Coord>, c: Coord)
    requires GroupsListed(grouped, cells) && k < |grouped|
    ensures c in grouped[k] ==> c in cells
  {
  }

  /** mergeNarrowPart changes only pixels of the particle whose rows it was given. */
  lemma MergeChanges(g: seq<seq<Pixel>>, grouped: seq<seq<Coord>>, limit: int, h: int, w: int, cells: seq<Coord>)
    requires IsGrid(g, h, w) && RowGroups(grouped, h, w) && GroupsListed(grouped, cells)
    ensures ChangedWithin(g, MergeResult(g, grouped, |grouped|, limit, h, w).g, cells)
  {
    forall i, j | 0 <= i < h && 0 <= j < w
      ensures MergeResult(g, grouped, |grouped|, limit, h, w).g[i][j] != g[i][j] ==> Coord(j, i) in cells
    {
      MergeAt(g, grouped, |grouped|, limit, h, w, cells, i, j);
    }
  }

  /** The pixels of a particle's groups are its visited pixels. */
  lemma GroupRowsListed(visited: seq<Coord>)
    ensures GroupsListed(PixelRows.GroupRows(visited), visited)
  {
    var rows := PixelRows.GroupRows(visited);
    PixelRows.GroupRowsSpec(visited);
    forall k, c | 0 <= k < |rows| && c in rows[k]
      ensures c in visited
    {
      var t :| 0 <= t < |rows[k]| && rows[k][t] == c;
      ConcatHas(rows, k, t);
      assert c in multiset(PixelRows.Concat(rows));
    }
  }

  /**
   * A small particle is repainted exactly when it has a major neighbour of another
   * colour than its start pixel c; then all and only its visited pixels take that colour.
   */
  lemma SmallRepaint(g: seq<seq<Pixel>>, visited: seq<Coord>, neighbours: seq<Coord>, c: Coord, h: int, w: int)
    requires IsGrid(g, h, w) && AllInRange(visited, h, w) && InRange(c, h, w) && AllInRange(neighbours, h, w)
    ensures IsMajor(g, neighbours, Major(g, neighbours).0, Major(g, neighbours).1)
    ensures SmallResult(g, visited, neighbours, c, h, w).modified
      <==> Major(g, neighbours).0.Some? && ColourAt(g, Major(g, neighbours).0.value) != g[c.y][c.x]
    ensures SmallResult(g, visited, neighbours, c, h, w).modified ==>
      Major(g, neighbours).0.Some? && Major(g, neighbours).0.value in neighbours
      && forall i, j :: 0 <= i < h && 0 <= j < w ==>
           SmallResult(g, visited, neighbours, c, h, w).g[i][j]
             == if Coord(j, i) in visited then ColourAt(g, Major(g, neighbours).0.value) else g[i][j]
    ensures !SmallResult(g, visited, neighbours, c, h, w).modified ==> SmallResult(g, visited, neighbours, c, h, w).g == g
  {
    MajorSpec(g, neighbours);
    MajorFacts(g, neighbours, Major(g, neighbours).0, Major(g, neighbours).1);
    var r := SmallResult(g, visited, neighbours, c, h, w);
    if r.modified {
      InRangeOnBoard(g, visited, h, w);
      forall i, j | 0 <= i < h && 0 <= j < w
        ensures r.g[i][j] == if Coord(j, i) in visited then ColourAt(g, Major(g, neighbours).0.value) else g[i][j]
      {
        PaintCellsAt(g, visited, ColourAt(g, Major(g, neighbours).0.value), i, j);
      }
    }
  }

  // ---------------------------------------------------------------------------
  // removeExceedingRow
  // ---------------------------------------------------------------------------

  /** ExceedAt of a spur, given any answer of getMajorNeighbour for its differing neighbours. */
  lemma ExceedAtIs(g: seq<seq<Pixel>>, x: int, y: int, h: int, w: int, neighbour: Option<Coord>, count: nat)
    requires IsGrid(g, h, w) && InRange(Coord(x, y), h, w) && Exceeds(g, x, y)
    requires IsMajor(g, DifferingNeighbours(g, x, y), neighbour, count)
    ensures count > 0 ==> neighbour.Some? && OnBoard(g, neighbour.value)
    ensures Repaints(g, neighbour, count, g[y][x]) ==>
      ExceedAt(g, x, y, h, w) == g[y := g[y][x := ColourAt(g, neighbour.value)]]
    ensures !Repaints(g, neighbour, count, g[y][x]) ==> ExceedAt(g, x, y, h, w) == g
  {
    var nb := DifferingNeighbours(g, x, y);
    MajorSpec(g, nb);
    MajorDeterministic(g, nb, neighbour, count, Major(g, nb).0, Major(g, nb).1);
    MajorIn(g, nb, neighbour, count);
    if count > 0 {
      var k :| 0 <= k < |nb| && nb[k] == neighbour.value;
      assert OnBoard(g, neighbour.value);
    }
    if Repaints(g, neighbour, count, g[y][x]) {
      PaintOne(g, Coord(x, y), ColourAt(g, neighbour.value));
    }
  }

  /**
   * removeExceedingRow at (x, y) changes no other pixel; it changes (x, y) exactly when
   * that pixel is a spur, and then to the colour of one of its 4-neighbours of a
   * different colour.
   */
  lemma ExceedAtSpec(g: seq<seq<Pixel>>, x: int, y: int, h: int, w: int)
    requires IsGrid(g, h, w) && InRange(Coord(x, y), h, w)
    ensures forall i, j :: 0 <= i < h && 0 <= j < w && (i != y || j != x) ==> ExceedAt(g, x, y, h, w)[i][j] == g[i][j]
    ensures ExceedAt(g, x, y, h, w)[y][x] != g[y][x] <==> Exceeds(g, x, y)
    ensures Exceeds(g, x, y) ==>
      exists n :: n in DifferingNeighbours(g, x, y) && Adjacent4(n, Coord(x, y)) && ExceedAt(g, x, y, h, w)[y][x] == ColourAt(g, n)
  {
    var r := ExceedAt(g, x, y, h, w);
    if Exceeds(g, x, y) {
      var n := SpurRepaint(g, x, y, h, w);
      hide ExceedAt, DifferingNeighbours;
      PointUpdate(g, r, x, y, ColourAt(g, n), h, w);
    } else {
      assert r == g;
    }
  }

  /** A spur is repainted with the colour of one of its differing 4-neighbours. */
  lemma SpurRepaint(g: seq<seq<Pixel>>, x: int, y: int, h: int, w: int) returns (n: Coord)
    requires IsGrid(g, h, w) && InRange(Coord(x, y), h, w) && Exceeds(g, x, y)
    ensures n in DifferingNeighbours(g, x, y) && Adjacent4(n, Coord(x, y)) && ColourAt(g, n) != g[y][x]
    ensures ExceedAt(g, x, y, h, w) == g[y := g[y][x := ColourAt(g, n)]]
  {
    SpurHasNeighbour(g, x, y);
    hide Major, PaintCells, DifferingNeighbours, ExceedAt;
    var nb := DifferingNeighbours(g, x, y);
    MajorSpec(g, nb);
    var major := Major(g, nb).0;
    var count := Major(g, nb).1;
    MajorIn(g, nb, major, count);
    var k :| 0 <= k < |nb| && nb[k] == major.value;
    n := major.value;
    assert Adjacent4(n, Coord(x, y)) && ColourAt(g, n) != g[y][x];
    ExceedAtIs(g, x, y, h, w, major, count);
  }

  /** Setting the pixel (x, y) of g leaves every other pixel as it was. */
  lemma PointUpdate(g: seq<seq<Pixel>>, r: seq<seq<Pixel>>, x: int, y: int, col: Pixel, h: int, w: int)
    requires IsGrid(g, h, w) && InRange(Coord(x, y), h, w) && r == g[y := g[y][x := col]]
    ensures forall i, j :: 0 <= i < h && 0 <= j < w && (i != y || j != x) ==> r[i][j] == g[i][j]
    ensures r[y][x] == col
  {
  }

  /** A spur has at least one 4-neighbour of another colour. */
  lemma SpurHasNeighbour(g: seq<seq<Pixel>>, x: int, y: int)
    requires 0 <= y < |g| && 0 <= x < |g[y]| && Rectangular(g, |g[y]|)
    ensures Exceeds(g, x, y) ==> |DifferingNeighbours(g, x, y)| > 0
  {
  }
}
