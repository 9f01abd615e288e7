/**
 * The noise-reduction stage (src/medianFilter.js). Every pixel, in row-major order,
 * is replaced by the middle entry of its N x N window stably sorted by R^2+G^2+B^2;
 * positions outside the grid read as BACKGROUND_COLOR. The grid is written in place,
 * so a window reads the pixels above and to the left of it after they were filtered.
 */
module MedianFilter {
  import opened Helper
  import opened Sorting

  /** What a window reads at row x, column y: the pixel, or the background outside the grid. */
  function At(g: seq<seq<Pixel>>, w: nat, x: int, y: int): Pixel
    requires Rectangular(g, w)
  {
    if x < 0 || x >= |g| || y < 0 || y >= w then BACKGROUND_COLOR else g[x][y]
  }

  /** The count entries of row x starting at column y0. */
  function WindowRow(g: seq<seq<Pixel>>, w: nat, x: int, y0: int, count: nat): (r: seq<Pixel>)
    requires Rectangular(g, w)
    ensures |r| == count
  {
    seq(count, t requires 0 <= t < count => At(g, w, x, y0 + t))
  }

  /** rows rows of n entries, from row x0 and column y0, row after row. */
  function WindowRows(g: seq<seq<Pixel>>, w: nat, x0: int, rows: nat, y0: int, n: nat): seq<Pixel>
    requires Rectangular(g, w)
  {
    if rows == 0 then [] else WindowRows(g, w, x0, rows - 1, y0, n) + WindowRow(g, w, x0 + rows - 1, y0, n)
  }

  /** The window of pixel (i, j) for half-size half, in the order the source pushes it. */
  function Window(g: seq<seq<Pixel>>, w: nat, i: int, j: int, half: nat): seq<Pixel>
    requires Rectangular(g, w)
  {
    WindowRows(g, w, i - half, 2 * half + 1, j - half, 2 * half + 1)
  }

  /** window[Math.floor(window.length / 2)] after the sort by R^2+G^2+B^2. */
  function Median(window: seq<Pixel>): Pixel
    requires |window| > 0
  {
    SortBy(window, SumSquares)[|window| / 2]
  }

  /** One step of the filter: pixel (i, j) becomes the median of its window in g. */
  function Step(g: seq<seq<Pixel>>, w: nat, i: nat, j: nat, half: nat): (r: seq<seq<Pixel>>)
    requires Rectangular(g, w) && i < |g| && j < w
    ensures |r| == |g| && Rectangular(r, w)
  {
    WindowSize(g, w, i, j, half);
    g[i := g[i][j := Median(Window(g, w, i, j, half))]]
  }

  /**
   * The grid after the steps for every pixel before (i, j) in row-major order, each
   * step reading the grid the previous steps left.
   */
  function FilterUpTo(g0: seq<seq<Pixel>>, w: nat, half: nat, i: nat, j: nat): (r: seq<seq<Pixel>>)
    requires Rectangular(g0, w) && i <= |g0| && j <= w && (i == |g0| ==> j == 0)
    ensures |r| == |g0| && Rectangular(r, w)
    decreases i, j
  {
    if j > 0 then Step(FilterUpTo(g0, w, half, i, j - 1), w, i, j - 1, half)
    else if i > 0 then FilterUpTo(g0, w, half, i - 1, w)
    else g0
  }

  /** The whole filter. */
  function Filtered(g0: seq<seq<Pixel>>, w: nat, half: nat): (r: seq<seq<Pixel>>)
    requires Rectangular(g0, w)
    ensures |r| == |g0| && Rectangular(r, w)
  {
    FilterUpTo(g0, w, half, |g0|, 0)
  }

  /** The window of (i, j), pushed entry by entry as the two inner loops of the source do. */
  method BuildWindow(a: array2<Pixel>, i: int, j: int, half: nat) returns (window: seq<Pixel>)
    ensures window == Window(Contents(a), a.Length1, i, j, half)
  {
    ghost var g := Contents(a);
    var height := a.Length0;
    var width := a.Length1;
    var n := 2 * half + 1;
    window := [];
    var wi := i - half;
    while wi <= i + half
      invariant i - half <= wi <= i + half + 1
      invariant window == WindowRows(g, width, i - half, wi - (i - half), j - half, n)
    {
      var wj := j - half;
      while wj <= j + half
        invariant j - half <= wj <= j + half + 1
        invariant window ==
          WindowRows(g, width, i - half, wi - (i - half), j - half, n) + WindowRow(g, width, wi, j - half, wj - (j - half))
      {
        ghost var row := WindowRow(g, width, wi, j - half, wj - (j - half));
        if wi < 0 || wi >= height || wj < 0 || wj >= width {
          window := window + [BACKGROUND_COLOR];
        } else {
          window := window + [a[wi, wj]];
        }
        assert WindowRow(g, width, wi, j - half, wj - (j - half) + 1) == row + [At(g, width, wi, wj)];
        wj := wj + 1;
      }
      wi := wi + 1;
    }
  }

  /**
   * medianFilter: for every pixel in row-major order, build its window, sort it and
   * write the middle entry back into the same grid.
   */
  method MedianFilterGrid(a: array2<Pixel>, slidingSize: nat)
    requires a.Length0 > 0
    modifies a
    ensures Contents(a) == Filtered(old(Contents(a)), a.Length1, slidingSize / 2)
  {
    var height := a.Length0;
    var width := a.Length1;
    var half := slidingSize / 2;
    ghost var g0 := Contents(a);
    for i := 0 to height
      invariant Contents(a) == FilterUpTo(g0, width, half, i, 0)
    {
      for j := 0 to width
        invariant Contents(a) == FilterUpTo(g0, width, half, i, j)
      {
        var window := BuildWindow(a, i, j, half);
        WindowSize(Contents(a), width, i, j, half);
        var sorted := SortBy(window, SumSquares);
        var median := sorted[|sorted| / 2];
        Write(a, i, j, median);
      }
    }
  }

  // ---------------------------------------------------------------------------
  // Properties of the window
  // ---------------------------------------------------------------------------

  lemma {:induction false} WindowRowsLength(g: seq<seq<Pixel>>, w: nat, x0: int, rows: nat, y0: int, n: nat)
    requires Rectangular(g, w)
    ensures |WindowRows(g, w, x0, rows, y0, n)| == rows * n
  {
    if rows > 0 {
      WindowRowsLength(g, w, x0, rows - 1, y0, n);
      MulSucc(rows, rows - 1, n);
    }
  }

  /** Each window has exactly (2*floor(N/2)+1)^2 entries. */
  lemma WindowSize(g: seq<seq<Pixel>>, w: nat, i: int, j: int, half: nat)
    requires Rectangular(g, w)
    ensures |Window(g, w, i, j, half)| == (2 * half + 1) * (2 * half + 1)
    ensures |Window(g, w, i, j, half)| > 0
  {
    WindowRowsLength(g, w, i - half, 2 * half + 1, j - half, 2 * half + 1);
  }

  lemma {:induction false} WindowRowsAt(g: seq<seq<Pixel>>, w: nat, x0: int, rows: nat, y0: int, n: nat, r: nat, t: nat)
    requires Rectangular(g, w) && r < rows && t < n
    ensures |WindowRows(g, w, x0, rows, y0, n)| == rows * n && r * n + t < rows * n
    ensures WindowRows(g, w, x0, rows, y0, n)[r * n + t] == At(g, w, x0 + r, y0 + t)
  {
    WindowRowsLength(g, w, x0, rows, y0, n);
    WindowRowsLength(g, w, x0, rows - 1, y0, n);
    CellIndexBound(r, t, n, rows);
    if r < rows - 1 {
      CellIndexBound(r, t, n, rows - 1);
      WindowRowsAt(g, w, x0, rows - 1, y0, n, r, t);
    }
  }

  /**
   * Entry r * N + t of the window of (i, j) is position (i - half + r, j - half + t):
   * the pixel there when it lies in the grid, BACKGROUND_COLOR when it does not.
   */
  lemma WindowAt(g: seq<seq<Pixel>>, w: nat, i: int, j: int, half: nat, r: nat, t: nat)
    requires Rectangular(g, w) && r < 2 * half + 1 && t < 2 * half + 1
    ensures |Window(g, w, i, j, half)| == (2 * half + 1) * (2 * half + 1)
    ensures r * (2 * half + 1) + t < |Window(g, w, i, j, half)|
    ensures var x := i - half + r;
      var y := j - half + t;
      Window(g, w, i, j, half)[r * (2 * half + 1) + t] ==
        if x < 0 || x >= |g| || y < 0 || y >= w then BACKGROUND_COLOR else g[x][y]
  {
    WindowRowsAt(g, w, i - half, 2 * half + 1, j - half, 2 * half + 1, r, t);
  }

  /** Every entry of every window is a pixel of the grid or the background. */
  lemma {:induction false} WindowRowsIn(g: seq<seq<Pixel>>, w: nat, x0: int, rows: nat, y0: int, n: nat, palette: set<Pixel>)
    requires Rectangular(g, w) && BACKGROUND_COLOR in palette
    requires forall x, y :: 0 <= x < |g| && 0 <= y < w ==> g[x][y] in palette
    ensures forall k :: 0 <= k < |WindowRows(g, w, x0, rows, y0, n)| ==> WindowRows(g, w, x0, rows, y0, n)[k] in palette
  {
    if rows > 0 {
      WindowRowsIn(g, w, x0, rows - 1, y0, n, palette);
      var pre := WindowRows(g, w, x0, rows - 1, y0, n);
      var row := WindowRow(g, w, x0 + rows - 1, y0, n);
      forall t | 0 <= t < |row|
        ensures row[t] in palette
      {
        var x := x0 + rows - 1;
        var y := y0 + t;
        assert row[t] == At(g, w, x, y);
        if 0 <= x < |g| && 0 <= y < w {
          assert At(g, w, x, y) == g[x][y];
        }
      }
      forall k | 0 <= k < |pre + row|
        ensures (pre + row)[k] in palette
      {
        if k >= |pre| {
          assert (pre + row)[k] == row[k - |pre|];
        }
      }
    }
  }

  /** A block of rows that reads a single colour everywhere holds only that colour. */
  lemma {:induction false} WindowRowsUniform(g: seq<seq<Pixel>>, w: nat, x0: int, rows: nat, y0: int, n: nat, c: Pixel)
    requires Rectangular(g, w)
    requires forall x, y :: x0 <= x < x0 + rows && y0 <= y < y0 + n ==> At(g, w, x, y) == c
    ensures forall k :: 0 <= k < |WindowRows(g, w, x0, rows, y0, n)| ==> WindowRows(g, w, x0, rows, y0, n)[k] == c
  {
    if rows > 0 {
      WindowRowsUniform(g, w, x0, rows - 1, y0, n, c);
      var pre := WindowRows(g, w, x0, rows - 1, y0, n);
      var row := WindowRow(g, w, x0 + rows - 1, y0, n);
      forall t | 0 <= t < |row|
        ensures row[t] == c
      {
        assert row[t] == At(g, w, x0 + rows - 1, y0 + t);
      }
      forall k | 0 <= k < |pre + row|
        ensures (pre + row)[k] == c
      {
        if k >= |pre| {
          assert (pre + row)[k] == row[k - |pre|];
        }
      }
    }
  }

  /**
   * The written pixel is an entry of its window, at most floor(len/2) entries have a
   * smaller key and at most len-1-floor(len/2) a larger one.
   */
  lemma MedianIsMiddle(window: seq<Pixel>)
    requires |window| > 0
    ensures Median(window) in window
    ensures CountIf(window, Below(SumSquares, SumSquares(Median(window)))) <= |window| / 2
    ensures CountIf(window, Above(SumSquares, SumSquares(Median(window)))) <= |window| - 1 - |window| / 2
  {
    MiddleRank(window, SumSquares);
  }

  // ---------------------------------------------------------------------------
  // Properties of the filter
  // ---------------------------------------------------------------------------

  /** Step (i, j) writes pixel (i, j) and no other. */
  lemma StepWritesOne(g: seq<seq<Pixel>>, w: nat, i: nat, j: nat, half: nat, x: nat, y: nat)
    requires Rectangular(g, w) && i < |g| && j < w && x < |g| && y < w
    ensures (x != i || y != j) ==> Step(g, w, i, j, half)[x][y] == g[x][y]
    ensures Step(g, w, i, j, half)[i][j] in Window(g, w, i, j, half)
  {
    WindowSize(g, w, i, j, half);
    MedianIsMiddle(Window(g, w, i, j, half));
  }

  /** A step keeps every pixel inside a palette that holds the grid's colours and the background. */
  lemma StepPalette(g: seq<seq<Pixel>>, w: nat, i: nat, j: nat, half: nat, palette: set<Pixel>)
    requires Rectangular(g, w) && i < |g| && j < w && BACKGROUND_COLOR in palette
    requires forall x, y :: 0 <= x < |g| && 0 <= y < w ==> g[x][y] in palette
    ensures forall x, y :: 0 <= x < |g| && 0 <= y < w ==> Step(g, w, i, j, half)[x][y] in palette
  {
    var win := Window(g, w, i, j, half);
    WindowSize(g, w, i, j, half);
    WindowRowsIn(g, w, i - half, 2 * half + 1, j - half, 2 * half + 1, palette);
    MedianIsMiddle(win);
  }

  /** The filter only ever writes colours the input had, or the background. */
  lemma {:induction false} FilterPalette(g0: seq<seq<Pixel>>, w: nat, half: nat, i: nat, j: nat, palette: set<Pixel>)
    requires Rectangular(g0, w) && i <= |g0| && j <= w && (i == |g0| ==> j == 0)
    requires BACKGROUND_COLOR in palette
    requires forall x, y :: 0 <= x < |g0| && 0 <= y < w ==> g0[x][y] in palette
    ensures forall x, y :: 0 <= x < |g0| && 0 <= y < w ==> FilterUpTo(g0, w, half, i, j)[x][y] in palette
    decreases i, j
  {
    if j > 0 {
      FilterPalette(g0, w, half, i, j - 1, palette);
      StepPalette(FilterUpTo(g0, w, half, i, j - 1), w, i, j - 1, half, palette);
    } else if i > 0 {
      FilterPalette(g0, w, half, i - 1, w, palette);
    }
  }

  /** A grid uniformly BACKGROUND_COLOR is left unchanged. */
  lemma {:induction false} BackgroundFixed(g0: seq<seq<Pixel>>, w: nat, half: nat, i: nat, j: nat)
    requires Rectangular(g0, w) && i <= |g0| && j <= w && (i == |g0| ==> j == 0)
    requires forall x, y :: 0 <= x < |g0| && 0 <= y < w ==> g0[x][y] == BACKGROUND_COLOR
    ensures FilterUpTo(g0, w, half, i, j) == g0
    decreases i, j
  {
    if j > 0 {
      BackgroundFixed(g0, w, half, i, j - 1);
      StepPalette(g0, w, i, j - 1, half, {BACKGROUND_COLOR});
      var r := Step(g0, w, i, j - 1, half);
      assert r[i] == g0[i];
    } else if i > 0 {
      BackgroundFixed(g0, w, half, i - 1, w);
    }
  }

  /** A pixel whose window lies inside the grid and has a single colour keeps that colour. */
  lemma UniformWindowKeepsColour(g: seq<seq<Pixel>>, w: nat, i: nat, j: nat, half: nat, c: Pixel)
    requires Rectangular(g, w) && half <= i && i + half < |g| && half <= j && j + half < w
    requires forall x, y :: i - half <= x <= i + half && j - half <= y <= j + half ==> g[x][y] == c
    ensures Step(g, w, i, j, half)[i][j] == c
  {
    var win := Window(g, w, i, j, half);
    WindowSize(g, w, i, j, half);
    forall x, y | i - half <= x < i - half + (2 * half + 1) && j - half <= y < j - half + (2 * half + 1)
      ensures At(g, w, x, y) == c
    {
      assert g[x][y] == c;
    }
    WindowRowsUniform(g, w, i - half, 2 * half + 1, j - half, 2 * half + 1, c);
    MedianIsMiddle(win);
  }
}
