/**
 * The edge renderer (src/edgeDetection.js). edgeDetection flags every pixel that
 * differs from its left or its upper neighbour; edgeAssignment paints a fresh grid
 * from those flags and then forces a black frame around it. The input grid is only
 * read: neither method has a modifies clause.
 */
module EdgeDetection {
  import opened Helper

  const BLACK: Pixel := Pixel(0, 0, 0, 255)
  const WHITE: Pixel := Pixel(255, 255, 255, 255)

  /** One entry [j, i, flag] of edgeIdx: x is the column, y the row, isEdge is 1 or 0. */
  datatype EdgeEntry = EdgeEntry(x: nat, y: nat, isEdge: nat)

  /** Pixel (i, j) is not equal to its left or its upper neighbour. */
  predicate IsEdge(g: seq<seq<Pixel>>, w: nat, i: nat, j: nat)
    requires Rectangular(g, w) && 1 <= i < |g| && 1 <= j < w
  {
    !SameColor(g[i][j - 1], g[i][j]) || !SameColor(g[i - 1][j], g[i][j])
  }

  function Flag(g: seq<seq<Pixel>>, w: nat, i: nat, j: nat): nat
    requires Rectangular(g, w) && 1 <= i < |g| && 1 <= j < w
  {
    if IsEdge(g, w, i, j) then 1 else 0
  }

  /** The entries the inner loop pushes for row i: columns 1 .. w-1. */
  function EdgeRow(g: seq<seq<Pixel>>, w: nat, i: nat): (r: seq<EdgeEntry>)
    requires Rectangular(g, w) && 1 <= i < |g|
    ensures |r| == if w == 0 then 0 else w - 1
  {
    if w == 0 then [] else seq(w - 1, t requires 0 <= t < w - 1 => EdgeEntry(t + 1, i, Flag(g, w, i, t + 1)))
  }

  /** The entries for rows 1 .. rows-1, row after row. */
  function EdgeRows(g: seq<seq<Pixel>>, w: nat, rows: nat): seq<EdgeEntry>
    requires Rectangular(g, w) && rows <= |g|
  {
    if rows <= 1 then [] else EdgeRows(g, w, rows - 1) + EdgeRow(g, w, rows - 1)
  }

  /** The inner loop of edgeDetection for row i. */
  method DetectRow(a: array2<Pixel>, i: nat) returns (row: seq<EdgeEntry>)
    requires 1 <= i < a.Length0
    ensures row == EdgeRow(Contents(a), a.Length1, i)
  {
    ghost var g := Contents(a);
    var width := a.Length1;
    row := [];
    var j := 1;
    while j < width
      invariant 1 <= j <= if width == 0 then 1 else width
      invariant row == EdgeRow(g, width, i)[..j - 1]
    {
      var prevX, currX, prevY, currY := a[i, j - 1], a[i, j], a[i - 1, j], a[i, j];
      var entry;
      if !SameColor(prevX, currX) || !SameColor(prevY, currY) {
        entry := EdgeEntry(j, i, 1);
      } else {
        entry := EdgeEntry(j, i, 0);
      }
      assert entry == EdgeEntry(j, i, Flag(g, width, i, j));
      EdgeRowPrefix(g, width, i, j);
      row := row + [entry];
      j := j + 1;
    }
    assert EdgeRow(g, width, i)[..if width == 0 then 0 else width - 1] == EdgeRow(g, width, i);
  }

  lemma EdgeRowPrefix(g: seq<seq<Pixel>>, w: nat, i: nat, j: nat)
    requires Rectangular(g, w) && 1 <= i < |g| && 1 <= j < w
    ensures EdgeRow(g, w, i)[..j] == EdgeRow(g, w, i)[..j - 1] + [EdgeEntry(j, i, Flag(g, w, i, j))]
  {
  }

  /** edgeDetection: the nested loops over i in 1..h-1 and j in 1..w-1. */
  method EdgeDetect(a: array2<Pixel>) returns (edgeIdx: seq<EdgeEntry>)
    requires a.Length0 > 0
    ensures edgeIdx == EdgeRows(Contents(a), a.Length1, a.Length0)
  {
    ghost var g := Contents(a);
    var height := a.Length0;
    edgeIdx := [];
    for i := 1 to height
      invariant edgeIdx == EdgeRows(g, a.Length1, i)
    {
      var row := DetectRow(a, i);
      edgeIdx := edgeIdx + row;
    }
  }

  /** Rows 1 .. rows-1 give (rows-1)*(w-1) entries. */
  lemma {:induction false} EdgeRowsLength(g: seq<seq<Pixel>>, w: nat, rows: nat)
    requires Rectangular(g, w) && 1 <= rows <= |g| && w >= 1
    ensures |EdgeRows(g, w, rows)| == (rows - 1) * (w - 1)
  {
    if rows > 1 {
      EdgeRowsLength(g, w, rows - 1);
      MulSucc(rows - 1, rows - 2, w - 1);
    }
  }

  /** The position of (i, j) lies before the end of row i, inside the first rows-1 rows. */
  lemma EntryIndexBound(i: nat, j: nat, n: nat, rows: nat)
    requires 1 <= i < rows && j < n
    ensures 0 <= (i - 1) * n && (i - 1) * n + j < (rows - 1) * n
  {
    var a: nat := i - 1;
    var b: nat := rows - i;
    assert (rows - 1) * n == a * n + b * n;
    assert b * n >= n by {
      assert b * n == (b - 1) * n + n;
    }
  }

  lemma AppendLeft<T>(a: seq<T>, b: seq<T>, k: int)
    requires 0 <= k < |a|
    ensures (a + b)[k] == a[k]
  {
  }

  lemma AppendRight<T>(a: seq<T>, b: seq<T>, k: int)
    requires 0 <= k < |b|
    ensures (a + b)[|a| + k] == b[k]
  {
  }

  lemma EdgeRowAt(g: seq<seq<Pixel>>, w: nat, i: nat, j: nat)
    requires Rectangular(g, w) && 1 <= i < |g| && 1 <= j < w
    ensures EdgeRow(g, w, i)[j - 1] == EdgeEntry(j, i, Flag(g, w, i, j))
  {
  }

  /** Among the entries of rows 1 .. rows-1, entry (i-1)*(w-1)+(j-1) is the one for column j of row i. */
  lemma {:induction false} EdgeRowsAtRow(g: seq<seq<Pixel>>, w: nat, rows: nat, i: nat, j: nat)
    requires Rectangular(g, w) && rows <= |g| && 1 <= i < rows && 1 <= j < w
    ensures |EdgeRows(g, w, rows)| == (rows - 1) * (w - 1)
    ensures (i - 1) * (w - 1) + (j - 1) < |EdgeRows(g, w, rows)|
    ensures EdgeRows(g, w, rows)[(i - 1) * (w - 1) + (j - 1)] == EdgeEntry(j, i, Flag(g, w, i, j))
  {
    hide Flag;
    EdgeRowsLength(g, w, rows);
    EdgeRowsLength(g, w, rows - 1);
    EntryIndexBound(i, j - 1, w - 1, rows);
    var pre := EdgeRows(g, w, rows - 1);
    var row := EdgeRow(g, w, rows - 1);
    assert EdgeRows(g, w, rows) == pre + row;
    var k := (i - 1) * (w - 1) + (j - 1);
    if i < rows - 1 {
      EdgeRowsAtRow(g, w, rows - 1, i, j);
      AppendLeft(pre, row, k);
    } else {
      assert k == |pre| + (j - 1);
      EdgeRowAt(g, w, i, j);
      AppendRight(pre, row, j - 1);
    }
  }

  /**
   * edgeDetection returns (h-1)*(w-1) entries in raster order: entry (i-1)*(w-1)+(j-1)
   * is the one for column j of row i.
   */
  lemma EdgeRowsAt(g: seq<seq<Pixel>>, w: nat, i: nat, j: nat)
    requires Rectangular(g, w) && 1 <= i < |g| && 1 <= j < w
    ensures |EdgeRows(g, w, |g|)| == (|g| - 1) * (w - 1)
    ensures (i - 1) * (w - 1) + (j - 1) < |EdgeRows(g, w, |g|)|
    ensures EdgeRows(g, w, |g|)[(i - 1) * (w - 1) + (j - 1)] == EdgeEntry(j, i, Flag(g, w, i, j))
  {
    EdgeRowsAtRow(g, w, |g|, i, j);
  }

  /** An entry is flagged 1 exactly when its pixel differs from its left or its upper neighbour. */
  lemma FlagMeaning(g: seq<seq<Pixel>>, w: nat, i: nat, j: nat)
    requires Rectangular(g, w) && 1 <= i < |g| && 1 <= j < w
    ensures Flag(g, w, i, j) == 1 || Flag(g, w, i, j) == 0
    ensures Flag(g, w, i, j) == 1 <==> g[i][j - 1] != g[i][j] || g[i - 1][j] != g[i][j]
  {
  }

  /** Every entry names a pixel strictly inside the top and left border. */
  predicate InGrid(es: seq<EdgeEntry>, h: nat, w: nat)
  {
    forall k :: 0 <= k < |es| ==> 1 <= es[k].y < h && 1 <= es[k].x < w
  }

  lemma {:induction false} EdgeRowsInGrid(g: seq<seq<Pixel>>, w: nat, rows: nat)
    requires Rectangular(g, w) && rows <= |g|
    ensures InGrid(EdgeRows(g, w, rows), |g|, w)
  {
    if rows > 1 {
      EdgeRowsInGrid(g, w, rows - 1);
      var pre: seq<EdgeEntry> := EdgeRows(g, w, rows - 1);
      var row: seq<EdgeEntry> := EdgeRow(g, w, rows - 1);
      forall k | 0 <= k < |pre + row|
        ensures 1 <= (pre + row)[k].y < |g| && 1 <= (pre + row)[k].x < w
      {
        if k >= |pre| {
          assert (pre + row)[k] == row[k - |pre|];
        }
      }
    }
  }

  // ---------------------------------------------------------------------------
  // edgeAssignment
  // ---------------------------------------------------------------------------

  /** The fresh grid filled with null. */
  function Blank(h: nat, w: nat): (r: seq<seq<Option<Pixel>>>)
    ensures |r| == h && Rectangular(r, w)
  {
    seq(h, _ => seq(w, _ => None))
  }

  /** The colour an entry paints: black for an edge, else white or the original pixel. */
  function Paint(g: seq<seq<Pixel>>, w: nat, e: EdgeEntry, removeColor: bool): Pixel
    requires Rectangular(g, w) && e.y < |g| && e.x < w
  {
    if e.isEdge == 1 then BLACK else if removeColor then WHITE else g[e.y][e.x]
  }

  /** The fresh grid after the loop over edgeIdx has handled every entry of es. */
  function PaintAll(img: seq<seq<Option<Pixel>>>, g: seq<seq<Pixel>>, w: nat, es: seq<EdgeEntry>, removeColor: bool)
    : (r: seq<seq<Option<Pixel>>>)
    requires Rectangular(img, w) && Rectangular(g, w) && |img| == |g| && InGrid(es, |g|, w)
    ensures |r| == |img| && Rectangular(r, w)
  {
    if es == [] then img
    else
      var p := PaintAll(img, g, w, es[..|es| - 1], removeColor);
      var e := es[|es| - 1];
      p[e.y := p[e.y][e.x := Some(Paint(g, w, e, removeColor))]]
  }

  /** The grid after the first border loop has handled rows 0 .. n-1. */
  function FrameRows(img: seq<seq<Option<Pixel>>>, w: nat, n: nat): (r: seq<seq<Option<Pixel>>>)
    requires Rectangular(img, w) && w >= 1 && n <= |img|
    ensures |r| == |img| && Rectangular(r, w)
  {
    if n == 0 then img
    else
      var p := FrameRows(img, w, n - 1);
      var q := p[n - 1 := p[n - 1][0 := Some(BLACK)]];
      q[n - 1 := q[n - 1][w - 1 := Some(BLACK)]]
  }

  /** The grid after the second border loop has handled columns 0 .. n-1. */
  function FrameCols(img: seq<seq<Option<Pixel>>>, w: nat, n: nat): (r: seq<seq<Option<Pixel>>>)
    requires Rectangular(img, w) && |img| >= 1 && n <= w
    ensures |r| == |img| && Rectangular(r, w)
  {
    if n == 0 then img
    else
      var p := FrameCols(img, w, n - 1);
      var h := |img|;
      var q := p[0 := p[0][n - 1 := Some(BLACK)]];
      q[h - 1 := q[h - 1][n - 1 := Some(BLACK)]]
  }

  /** What edgeAssignment returns for grid g. */
  function EdgeImage(g: seq<seq<Pixel>>, w: nat, removeColor: bool): (r: seq<seq<Option<Pixel>>>)
    requires Rectangular(g, w) && |g| >= 1 && w >= 1
    ensures |r| == |g| && Rectangular(r, w)
  {
    EdgeRowsInGrid(g, w, |g|);
    var painted := PaintAll(Blank(|g|, w), g, w, EdgeRows(g, w, |g|), removeColor);
    FrameCols(FrameRows(painted, w, |g|), w, w)
  }

  /** The loop over edgeIdx of edgeAssignment. */
  method PaintEdges(out: array2<Option<Pixel>>, a: array2<Pixel>, edgeIdx: seq<EdgeEntry>, removeColor: bool)
    requires out.Length0 == a.Length0 && out.Length1 == a.Length1
    requires InGrid(edgeIdx, a.Length0, a.Length1)
    modifies out
    ensures Contents(out) == PaintAll(old(Contents(out)), Contents(a), a.Length1, edgeIdx, removeColor)
  {
    ghost var g := Contents(a);
    ghost var img := Contents(out);
    for k := 0 to |edgeIdx|
      invariant Contents(out) == PaintAll(img, g, a.Length1, edgeIdx[..k], removeColor)
    {
      var e := edgeIdx[k];
      var colour;
      if e.isEdge == 1 {
        colour := BLACK;
      } else if removeColor {
        colour := WHITE;
      } else {
        colour := a[e.y, e.x];
      }
      assert edgeIdx[..k + 1][..k] == edgeIdx[..k];
      Write(out, e.y, e.x, Some(colour));
    }
    assert edgeIdx[..|edgeIdx|] == edgeIdx;
  }

  /** The two border loops of edgeAssignment. */
  method DrawFrame(out: array2<Option<Pixel>>)
    requires out.Length0 > 0 && out.Length1 > 0
    modifies out
    ensures Contents(out) == FrameCols(FrameRows(old(Contents(out)), out.Length1, out.Length0), out.Length1, out.Length1)
  {
    var height := out.Length0;
    var width := out.Length1;
    ghost var img := Contents(out);
    for i := 0 to height
      invariant Contents(out) == FrameRows(img, width, i)
    {
      Write(out, i, 0, Some(BLACK));
      Write(out, i, width - 1, Some(BLACK));
    }
    ghost var framed := Contents(out);
    for j := 0 to width
      invariant Contents(out) == FrameCols(framed, width, j)
    {
      Write(out, 0, j, Some(BLACK));
      Write(out, height - 1, j, Some(BLACK));
    }
  }

  /** edgeAssignment: a fresh null grid, painted from edgeIdx, then framed in black. */
  method EdgeAssignment(a: array2<Pixel>, removeColor: bool) returns (out: array2<Option<Pixel>>)
    requires a.Length0 > 0 && a.Length1 > 0
    ensures fresh(out) && out.Length0 == a.Length0 && out.Length1 == a.Length1
    ensures Contents(out) == EdgeImage(Contents(a), a.Length1, removeColor)
  {
    ghost var g := Contents(a);
    out := new Option<Pixel>[a.Length0, a.Length1]((i, j) => None);
    forall i | 0 <= i < a.Length0
      ensures Contents(out)[i] == Blank(a.Length0, a.Length1)[i]
    {
    }
    assert Contents(out) == Blank(a.Length0, a.Length1);
    var edgeIdx := EdgeDetect(a);
    EdgeRowsInGrid(g, a.Length1, a.Length0);
    PaintEdges(out, a, edgeIdx, removeColor);
    assert Contents(a) == g;
    ghost var painted := Contents(out);
    assert painted == PaintAll(Blank(|g|, a.Length1), g, a.Length1, EdgeRows(g, a.Length1, |g|), removeColor);
    DrawFrame(out);
    assert Contents(out) == FrameCols(FrameRows(painted, a.Length1, |g|), a.Length1, a.Length1);
  }

  // ---------------------------------------------------------------------------
  // What the picture looks like, cell by cell
  // ---------------------------------------------------------------------------

  /** The colour the entry for row i, column j paints. */
  function Painted(g: seq<seq<Pixel>>, w: nat, i: nat, j: nat, removeColor: bool): Pixel
    requires Rectangular(g, w) && 1 <= i < |g| && 1 <= j < w
  {
    Paint(g, w, EdgeEntry(j, i, Flag(g, w, i, j)), removeColor)
  }

  /** The reference picture: a black frame; inside it black edges, else white or the original. */
  function EdgeCell(g: seq<seq<Pixel>>, w: nat, i: nat, j: nat, removeColor: bool): Pixel
    requires Rectangular(g, w) && i < |g| && j < w
  {
    if i == 0 || i == |g| - 1 || j == 0 || j == w - 1 then BLACK
    else if IsEdge(g, w, i, j) then BLACK
    else if removeColor then WHITE
    else g[i][j]
  }

  lemma {:induction false} PaintAllAppend(img: seq<seq<Option<Pixel>>>, g: seq<seq<Pixel>>, w: nat, s: seq<EdgeEntry>, t: seq<EdgeEntry>, removeColor: bool)
    requires Rectangular(img, w) && Rectangular(g, w) && |img| == |g| && InGrid(s, |g|, w) && InGrid(t, |g|, w)
    ensures InGrid(s + t, |g|, w)
    ensures PaintAll(img, g, w, s + t, removeColor) ==
      PaintAll(PaintAll(img, g, w, s, removeColor), g, w, t, removeColor)
    decreases |t|
  {
    assert forall k :: 0 <= k < |s + t| ==> (s + t)[k] == if k < |s| then s[k] else t[k - |s|];
    if t == [] {
      assert s + t == s;
    } else {
      var n := |t| - 1;
      assert InGrid(t[..n], |g|, w) by {
        forall k | 0 <= k < n
          ensures 1 <= t[..n][k].y < |g| && 1 <= t[..n][k].x < w
        {
          assert t[..n][k] == t[k];
        }
      }
      assert (s + t)[..|s + t| - 1] == s + t[..n];
      PaintAllAppend(img, g, w, s, t[..n], removeColor);
    }
  }

  /** Painting prefix m of row r's entries sets columns 1 .. m of row r and nothing else. */
  lemma {:induction false} PaintRowAt(img: seq<seq<Option<Pixel>>>, g: seq<seq<Pixel>>, w: nat, r: nat, m: nat, removeColor: bool, i: nat, j: nat)
    requires Rectangular(img, w) && Rectangular(g, w) && |img| == |g| && 1 <= r < |g|
    requires m <= |EdgeRow(g, w, r)| && i < |g| && j < w
    ensures InGrid(EdgeRow(g, w, r)[..m], |g|, w)
    ensures PaintAll(img, g, w, EdgeRow(g, w, r)[..m], removeColor)[i][j] ==
      if i == r && 1 <= j <= m then Some(Painted(g, w, i, j, removeColor)) else img[i][j]
  {
    var row := EdgeRow(g, w, r);
    assert InGrid(row[..m], |g|, w) by {
      forall k | 0 <= k < m
        ensures 1 <= row[..m][k].y < |g| && 1 <= row[..m][k].x < w
      {
        assert row[..m][k] == row[k];
      }
    }
    if m > 0 {
      assert row[..m][..m - 1] == row[..m - 1];
      PaintRowAt(img, g, w, r, m - 1, removeColor, i, j);
      assert row[..m][m - 1] == EdgeEntry(m, r, Flag(g, w, r, m));
    }
  }

  /** Painting the entries of row rows-1 after those of the rows above it. */
  lemma PaintRowsStep(g: seq<seq<Pixel>>, w: nat, rows: nat, removeColor: bool, i: nat, j: nat)
    requires Rectangular(g, w) && 2 <= rows <= |g| && i < |g| && j < w
    ensures InGrid(EdgeRows(g, w, rows), |g|, w) && InGrid(EdgeRows(g, w, rows - 1), |g|, w)
    ensures PaintAll(Blank(|g|, w), g, w, EdgeRows(g, w, rows), removeColor)[i][j] ==
      if i == rows - 1 && 1 <= j then Some(Painted(g, w, i, j, removeColor))
      else PaintAll(Blank(|g|, w), g, w, EdgeRows(g, w, rows - 1), removeColor)[i][j]
  {
    EdgeRowsInGrid(g, w, rows);
    EdgeRowsInGrid(g, w, rows - 1);
    var pre := EdgeRows(g, w, rows - 1);
    var row := EdgeRow(g, w, rows - 1);
    assert EdgeRows(g, w, rows) == pre + row;
    hide PaintAll, Blank, Flag, Painted, EdgeRows, EdgeRow;
    var blank := Blank(|g|, w);
    PaintRowAt(PaintAll(blank, g, w, pre, removeColor), g, w, rows - 1, |row|, removeColor, i, j);
    assert row[..|row|] == row;
    PaintAllAppend(blank, g, w, pre, row, removeColor);
  }

  /** Painting the entries of rows 1 .. rows-1 onto the blank grid. */
  lemma {:induction false} PaintRowsAt(g: seq<seq<Pixel>>, w: nat, rows: nat, removeColor: bool, i: nat, j: nat)
    requires Rectangular(g, w) && 1 <= rows <= |g| && i < |g| && j < w
    ensures InGrid(EdgeRows(g, w, rows), |g|, w)
    ensures PaintAll(Blank(|g|, w), g, w, EdgeRows(g, w, rows), removeColor)[i][j] ==
      if 1 <= i < rows && 1 <= j then Some(Painted(g, w, i, j, removeColor)) else None
  {
    EdgeRowsInGrid(g, w, rows);
    if rows > 1 {
      hide PaintAll, Blank, Painted, EdgeRows;
      PaintRowsAt(g, w, rows - 1, removeColor, i, j);
      PaintRowsStep(g, w, rows, removeColor, i, j);
    }
  }

  lemma {:induction false} FrameRowsAt(img: seq<seq<Option<Pixel>>>, w: nat, n: nat, i: nat, j: nat)
    requires Rectangular(img, w) && w >= 1 && n <= |img| && i < |img| && j < w
    ensures FrameRows(img, w, n)[i][j] == if i < n && (j == 0 || j == w - 1) then Some(BLACK) else img[i][j]
  {
    if n > 0 {
      FrameRowsAt(img, w, n - 1, i, j);
    }
  }

  lemma {:induction false} FrameColsAt(img: seq<seq<Option<Pixel>>>, w: nat, n: nat, i: nat, j: nat)
    requires Rectangular(img, w) && |img| >= 1 && n <= w && i < |img| && j < w
    ensures FrameCols(img, w, n)[i][j] == if j < n && (i == 0 || i == |img| - 1) then Some(BLACK) else img[i][j]
  {
    if n > 0 {
      FrameColsAt(img, w, n - 1, i, j);
    }
  }

  /**
   * edgeAssignment's grid has the input's dimensions, no null cell, a black frame, and
   * inside it black edges and, elsewhere, white or the original colour.
   */
  lemma EdgeImageCell(g: seq<seq<Pixel>>, w: nat, removeColor: bool, i: nat, j: nat)
    requires Rectangular(g, w) && |g| >= 1 && w >= 1 && i < |g| && j < w
    ensures EdgeImage(g, w, removeColor)[i][j] == Some(EdgeCell(g, w, i, j, removeColor))
  {
    EdgeRowsInGrid(g, w, |g|);
    var painted := PaintAll(Blank(|g|, w), g, w, EdgeRows(g, w, |g|), removeColor);
    PaintRowsAt(g, w, |g|, removeColor, i, j);
    FrameRowsAt(painted, w, |g|, i, j);
    FrameColsAt(FrameRows(painted, w, |g|), w, w, i, j);
  }
}
