/**
 * connectedComponentLabeling (src/regionLabeling.js:116-211): the grid that
 * fillBinaryEmptyPixels produces is labelled in two raster passes with a
 * union-find over the tentative labels, and the 1-cells are returned grouped
 * by final label, moved back by the box offsets.
 *
 * The returned object is keyed by the final labels 1, 2, ..., which are
 * integer keys and so enumerate in increasing order; the model returns the
 * lists as a sequence whose entry l - 1 holds label l.
 */
module RegionComponents {
  import opened Helper
  import opened Constants
  import opened RegionFill
  import opened ComponentSpec
  import opened LabelingSpec
  import opened DisjointSets

  /** The grid fillBinaryEmptyPixels fills for these rows and this box. */
  ghost function FilledGrid(rs: seq<seq<Coord>>, org: Box, reverse: bool): (g: seq<seq<int>>)
    requires NonEmptyRows(rs) && (org == NO_BOX ==> rs != []) && Height(Bounds(rs, org)) >= 0 && Width(Bounds(rs, org)) >= 0
    ensures |g| == Height(Bounds(rs, org)) && Rectangular(g, Width(Bounds(rs, org)))
    ensures forall i, j :: 0 <= i < |g| && 0 <= j < |g[i]| ==> g[i][j] == FillCell(rs, Bounds(rs, org), reverse, i, j)
  {
    var b := Bounds(rs, org);
    seq(Height(b), i requires 0 <= i < Height(b) =>
      seq(Width(b), j requires 0 <= j < Width(b) => FillCell(rs, b, reverse, i, j)))
  }

  /** Math.min(...neighbors). */
  function MinOf(s: seq<int>): (m: int)
    requires |s| > 0
    ensures m in s && forall x :: x in s ==> m <= x
  {
    if |s| == 1 then s[0]
    else
      var m := MinOf(s[1..]);
      assert forall x :: x in s[1..] ==> x in s;
      assert forall x :: x in s ==> x == s[0] || x in s[1..];
      if s[0] <= m then s[0] else m
  }

  /**
   * connectedComponentLabeling: the 4-connected components of the filled
   * grid's 1-cells, each listed in raster order, ordered by their first
   * cell, and moved by (minX, minY).
   */
  method ConnectedComponentLabeling(groupedPixelsByRow: seq<seq<Coord>>, box: Box, inner: bool)
    returns (components: seq<seq<Coord>>)
    requires NonEmptyRows(groupedPixelsByRow) && (box == NO_BOX ==> groupedPixelsByRow != [])
    requires Height(Bounds(groupedPixelsByRow, box)) >= 1 && Width(Bounds(groupedPixelsByRow, box)) >= 0
    ensures var g := FilledGrid(groupedPixelsByRow, box, inner);
      var b := Bounds(groupedPixelsByRow, box);
      components == Shift(Group(g, Ones(g, |g|)), b.minX, b.minY)
  {
    var minX, minY, filled := FillBinaryEmptyPixels(groupedPixelsByRow, box, inner);
    ghost var g := FilledGrid(groupedPixelsByRow, box, inner);
    assert Contents(filled) == g by {
      forall r | 0 <= r < |g|
        ensures Contents(filled)[r] == g[r]
      {
      }
    }
    var rows, cols := filled.Length0, filled.Length1;
    var labels := new int[rows, cols]((i, j) => 0);
    var uf := new UnionFind();
    ghost var rep := LabelTentatively(filled, labels, uf);
    components := NumberComponents(filled, labels, uf, minX, minY, rep);
  }

  /** First pass (src/regionLabeling.js:147-178). */
  method LabelTentatively(filled: array2<int>, labels: array2<int>, uf: UnionFind) returns (ghost rep: seq<Coord>)
    requires labels != filled && labels.Length0 == filled.Length0 && labels.Length1 == filled.Length1
    requires forall i, j :: 0 <= i < labels.Length0 && 0 <= j < labels.Length1 ==> labels[i, j] == 0
    requires uf.Valid() && uf.parent == [0] && uf.root == [0]
    modifies labels, uf
    ensures uf.Valid() && |uf.parent| == |uf.root|
    ensures AllVisited(Contents(filled), Contents(labels), uf.root, rep)
  {
    ghost var g := Contents(filled);
    FirstPassStart(g, Contents(labels));
    hide FirstPass, Contents;
    var currentLabel := 1;
    rep := [Coord(0, 0)];
    for i := 0 to filled.Length0
      invariant uf.Valid() && |uf.parent| == |uf.root| == currentLabel == |rep|
      invariant FirstPass(g, Contents(labels), uf.root, rep, Coord(0, i))
    {
      for j := 0 to filled.Length1
        invariant uf.Valid() && |uf.parent| == |uf.root| == currentLabel == |rep|
        invariant FirstPass(g, Contents(labels), uf.root, rep, Coord(j, i))
      {
        if filled[i, j] == ONE {
          currentLabel, rep := LabelCell(filled, labels, uf, i, j, currentLabel, rep);
        } else {
          GridCell(filled, i, j);
          BackgroundStep(g, Contents(labels), uf.root, rep, Coord(j, i));
        }
      }
      RowEnd(g, Contents(labels), uf.root, rep, i);
    }
  }

  /** The first-pass step at the 1-cell in row i, column j (src/regionLabeling.js:152-176). */
  method LabelCell(filled: array2<int>, labels: array2<int>, uf: UnionFind, i: int, j: int, currentLabel: int, ghost rep: seq<Coord>)
    returns (nextLabel: int, ghost rep': seq<Coord>)
    requires labels != filled && labels.Length0 == filled.Length0 && labels.Length1 == filled.Length1
    requires 0 <= i < filled.Length0 && 0 <= j < filled.Length1 && filled[i, j] == ONE
    requires uf.Valid() && |uf.parent| == |uf.root| == currentLabel == |rep|
    requires FirstPass(Contents(filled), Contents(labels), uf.root, rep, Coord(j, i))
    modifies labels, uf
    ensures uf.Valid() && |uf.parent| == |uf.root| == nextLabel == |rep'|
    ensures FirstPass(Contents(filled), Contents(labels), uf.root, rep', Coord(j + 1, i))
  {
    ghost var g := Contents(filled);
    var neighbors := Neighbours(filled, labels, i, j, uf.root, rep);
    if |neighbors| == 0 {
      OpenLabel(labels, uf, i, j, currentLabel, g, rep);
      nextLabel, rep' := currentLabel + 1, rep + [Coord(j, i)];
    } else {
      nextLabel, rep' := currentLabel, rep;
      JoinLabel(labels, uf, i, j, neighbors, g, rep);
    }
  }

  /**
   * The labels of the 1-cells above and to the left of a 1-cell, in that
   * order (src/regionLabeling.js:153-161): each is a label already opened
   * and connected to the cell, and there are none exactly when neither
   * neighbour is a 1-cell.
   */
  method Neighbours(filled: array2<int>, labels: array2<int>, i: int, j: int, ghost root: seq<int>, ghost rep: seq<Coord>)
    returns (neighbors: seq<int>)
    requires labels.Length0 == filled.Length0 && labels.Length1 == filled.Length1
    requires 0 <= i < filled.Length0 && 0 <= j < filled.Length1 && filled[i, j] == ONE
    requires FirstPass(Contents(filled), Contents(labels), root, rep, Coord(j, i))
    ensures var g, L, c := Contents(filled), Contents(labels), Coord(j, i);
      && (|neighbors| == 0 <==> !Fg(g, Up(c)) && !Fg(g, Left(c)))
      && (Fg(g, Up(c)) ==> Label(L, Up(c)) in neighbors)
      && (Fg(g, Left(c)) ==> Label(L, Left(c)) in neighbors)
      && forall nb :: nb in neighbors ==> 1 <= nb < |rep| && Connected(g, c, rep[nb])
  {
    ghost var g := Contents(filled);
    ghost var L := Contents(labels);
    ghost var c := Coord(j, i);
    GridCell(filled, i, j);
    GridCell(filled, i - 1, j);
    GridCell(filled, i, j - 1);
    GridCell(labels, i - 1, j);
    GridCell(labels, i, j - 1);
    hide FirstPass, Tentative, RepsOk, CellsOk, Connected, Contents, Fg, Label;
    neighbors := [];
    if i > 0 && filled[i - 1, j] == ONE {
      NeighbourLabel(g, L, root, rep, c, Up(c));
      neighbors := neighbors + [labels[i - 1, j]];
    }
    if j > 0 && filled[i, j - 1] == ONE {
      NeighbourLabel(g, L, root, rep, c, Left(c));
      neighbors := neighbors + [labels[i, j - 1]];
    }
  }

  /** What the cell (i, j) of an array says about its contents. */
  lemma GridCell(a: array2<int>, i: int, j: int)
    ensures Label(Contents(a), Coord(j, i)) == if 0 <= i < a.Length0 && 0 <= j < a.Length1 then a[i, j] else 0
    ensures Fg(Contents(a), Coord(j, i)) <==> 0 <= i < a.Length0 && 0 <= j < a.Length1 && a[i, j] == ONE
  {
  }

  /** A 1-cell with no labelled neighbour opens the label currentLabel (src/regionLabeling.js:163-167). */
  method OpenLabel(labels: array2<int>, uf: UnionFind, i: int, j: int, currentLabel: int, ghost g: seq<seq<int>>, ghost rep: seq<Coord>)
    requires 0 <= i < labels.Length0 && 0 <= j < labels.Length1
    requires uf.Valid() && |uf.parent| == |uf.root| == currentLabel == |rep|
    requires var c := Coord(j, i);
      FirstPass(g, Contents(labels), uf.root, rep, c) && Fg(g, c) && !Fg(g, Up(c)) && !Fg(g, Left(c))
    modifies labels, uf
    ensures uf.Valid() && |uf.parent| == |uf.root| == |rep| + 1
    ensures FirstPass(g, Contents(labels), uf.root, rep + [Coord(j, i)], Coord(j + 1, i))
  {
    hide FirstPass, Contents;
    NewLabelStep(g, Contents(labels), uf.root, rep, Coord(j, i));
    Write(labels, i, j, currentLabel);
    uf.Add();
  }

  /**
   * A 1-cell with a labelled neighbour takes the smallest neighbouring label,
   * and every neighbouring label is united with it (src/regionLabeling.js:168-175).
   */
  method JoinLabel(labels: array2<int>, uf: UnionFind, i: int, j: int, neighbors: seq<int>,
                   ghost g: seq<seq<int>>, ghost rep: seq<Coord>)
    requires 0 <= i < labels.Length0 && 0 <= j < labels.Length1
    requires uf.Valid() && |uf.parent| == |uf.root| == |rep|
    requires FirstPass(g, Contents(labels), uf.root, rep, Coord(j, i)) && Fg(g, Coord(j, i))
    requires |neighbors| > 0
    requires forall nb :: nb in neighbors ==> 1 <= nb < |rep| && Connected(g, Coord(j, i), rep[nb])
    requires Fg(g, Up(Coord(j, i))) ==> Label(Contents(labels), Up(Coord(j, i))) in neighbors
    requires Fg(g, Left(Coord(j, i))) ==> Label(Contents(labels), Left(Coord(j, i))) in neighbors
    modifies labels, uf
    ensures uf.Valid() && |uf.parent| == |uf.root| == |rep|
    ensures FirstPass(g, Contents(labels), uf.root, rep, Coord(j + 1, i))
  {
    hide FirstPass, Tentative, RepsOk, CellsOk, CellOk, Connected, Contents, Label, Key;
    ghost var L := Contents(labels);
    ghost var c := Coord(j, i);
    FirstPassReps(g, L, uf.root, rep, c);
    var smallest := MinOf(neighbors);
    JoinStart(g, L, uf.root, rep, c, smallest);
    ghost var L' := Put(L, c, smallest);
    Write(labels, i, j, smallest);
    assert Contents(labels) == L';
    UnionAll(uf, neighbors, smallest, g, L', rep, c);
    JoinedCell(g, L, uf.root, rep, c, smallest, neighbors);
    JoinFinish(g, L', uf.root, rep, c);
  }

  /** union(neighbor, smallestLabel) for every neighbouring label (src/regionLabeling.js:172-174). */
  method UnionAll(uf: UnionFind, neighbors: seq<int>, smallest: int,
                  ghost g: seq<seq<int>>, ghost L: seq<seq<int>>, ghost rep: seq<Coord>, ghost c: Coord)
    requires uf.Valid() && |uf.parent| == |uf.root| == |rep|
    requires RepsOk(g, uf.root, rep) && CellsOk(g, L, uf.root, rep, c)
    requires smallest in neighbors
    requires forall nb :: nb in neighbors ==> 1 <= nb < |rep| && Connected(g, c, rep[nb])
    modifies uf
    ensures uf.Valid() && |uf.parent| == |uf.root| == |rep|
    ensures RepsOk(g, uf.root, rep) && CellsOk(g, L, uf.root, rep, c)
    ensures forall nb :: nb in neighbors ==> uf.root[nb] == uf.root[smallest]
  {
    hide RepsOk, CellsOk, Connected;
    for k := 0 to |neighbors|
      invariant uf.Valid() && |uf.parent| == |uf.root| == |rep|
      invariant RepsOk(g, uf.root, rep) && CellsOk(g, L, uf.root, rep, c)
      invariant forall nb :: nb in neighbors[..k] ==> 0 <= nb < |uf.root| && uf.root[nb] == uf.root[smallest]
    {
      ghost var r0 := uf.root;
      var nb := neighbors[k];
      assert nb in neighbors && neighbors[..k + 1] == neighbors[..k] + [nb];
      uf.Union(nb, smallest);
      assert Merged(r0, uf.root, nb, smallest);
      assert Connected(g, rep[nb], rep[smallest]) by {
        ConnectedSym(g, c, rep[nb]);
        ConnectedTrans(g, rep[nb], c, rep[smallest]);
      }
      UnionStep(g, L, r0, uf.root, rep, c, nb, smallest);
    }
    assert neighbors[..|neighbors|] == neighbors;
  }

  /** Second pass (src/regionLabeling.js:180-210). */
  method NumberComponents(filled: array2<int>, labels: array2<int>, uf: UnionFind, minX: int, minY: int, ghost rep: seq<Coord>)
    returns (components: seq<seq<Coord>>)
    requires labels != filled && labels.Length0 == filled.Length0 && labels.Length1 == filled.Length1
    requires uf.Valid() && |uf.parent| == |uf.root|
    requires AllVisited(Contents(filled), Contents(labels), uf.root, rep)
    modifies labels, uf
    ensures components == Shift(Group(Contents(filled), Ones(Contents(filled), filled.Length0)), minX, minY)
  {
    ghost var g := Contents(filled);
    ghost var L0 := Contents(labels);
    ghost var root := uf.root;
    FirstPassSound(g, L0, root, rep);
    assert Ones(g, 0) == [] && Group(g, []) == [];
    assert Numbered(L0, root, map[], []) && Pending(L0, L0, Coord(0, 0));
    hide Numbered, NumberedGroups, NumberedRoots, Group, FirstWith, Grouping, SameKeyIffConnected,
      AllVisited, FirstPass, Scanned, Ones, Shift, Contents, Connected, RasterIncreasing, Pending;
    var finalLabels: map<int, int> := map[];
    var newLabel := 1;
    components := [];
    for i := 0 to filled.Length0
      invariant uf.Valid() && uf.root == root && |uf.parent| == |root|
      invariant Pending(Contents(labels), L0, Coord(0, i))
      invariant Numbered(L0, root, finalLabels, Group(g, Ones(g, i)))
      invariant newLabel == |Group(g, Ones(g, i))| + 1
      invariant components == Shift(Group(g, Ones(g, i)), minX, minY)
    {
      ScannedRow(g, i);
      components, finalLabels, newLabel := NumberRow(filled, labels, uf, i, minX, minY, components, finalLabels, newLabel, L0, rep);
      PendingRow(Contents(labels), L0, i);
    }
  }

  /** The second pass over row i (src/regionLabeling.js:182-206). */
  method NumberRow(filled: array2<int>, labels: array2<int>, uf: UnionFind, i: int, minX: int, minY: int,
                   components: seq<seq<Coord>>, finalLabels: map<int, int>, newLabel: int, ghost L0: seq<seq<int>>, ghost rep: seq<Coord>)
    returns (components': seq<seq<Coord>>, finalLabels': map<int, int>, newLabel': int)
    requires labels != filled && labels.Length0 == filled.Length0 && labels.Length1 == filled.Length1
    requires 0 <= i < filled.Length0
    requires uf.Valid() && |uf.parent| == |uf.root|
    requires AllVisited(Contents(filled), L0, uf.root, rep) && SameKeyIffConnected(Contents(filled), L0, uf.root)
    requires Pending(Contents(labels), L0, Coord(0, i))
    requires var g := Contents(filled); var gs := Group(g, Scanned(g, i, 0));
      Numbered(L0, uf.root, finalLabels, gs) && newLabel == |gs| + 1 && components == Shift(gs, minX, minY)
    modifies labels, uf
    ensures uf.Valid() && uf.root == old(uf.root) && |uf.parent| == |uf.root|
    ensures Pending(Contents(labels), L0, Coord(filled.Length1, i))
    ensures var g := Contents(filled); var gs := Group(g, Scanned(g, i, filled.Length1));
      Numbered(L0, uf.root, finalLabels', gs) && newLabel' == |gs| + 1 && components' == Shift(gs, minX, minY)
  {
    ghost var g := Contents(filled);
    hide Numbered, NumberedGroups, NumberedRoots, Group, FirstWith, Grouping, SameKeyIffConnected,
      AllVisited, FirstPass, Scanned, Ones, Shift, Contents, Connected, RasterIncreasing;
    components', finalLabels', newLabel' := components, finalLabels, newLabel;
    for j := 0 to filled.Length1
      invariant uf.Valid() && uf.root == old(uf.root) && |uf.parent| == |uf.root|
      invariant Pending(Contents(labels), L0, Coord(j, i))
      invariant Numbered(L0, uf.root, finalLabels', Group(g, Scanned(g, i, j)))
      invariant newLabel' == |Group(g, Scanned(g, i, j))| + 1
      invariant components' == Shift(Group(g, Scanned(g, i, j)), minX, minY)
    {
      ScannedNext(g, i, j);
      FinalLabel(g, L0, uf.root, rep, Coord(j, i));
      GridCell(labels, i, j);
      assert Label(Contents(labels), Coord(j, i)) == Label(L0, Coord(j, i));
      if labels[i, j] != 0 {
        components', finalLabels', newLabel' :=
          NumberCell(filled, labels, uf, i, j, minX, minY, components', finalLabels', newLabel', L0, rep);
        assert Contents(filled) == g;
        assert Fg(g, Coord(j, i));
        assert Scanned(g, i, j + 1) == Scanned(g, i, j) + [Coord(j, i)];
      } else {
        PendingSkip(Contents(labels), L0, Coord(j, i));
        assert !Fg(g, Coord(j, i));
        assert Scanned(g, i, j + 1) == Scanned(g, i, j);
      }
    }
  }

  /** The second-pass step at the 1-cell in row i, column j (src/regionLabeling.js:183-204). */
  method NumberCell(filled: array2<int>, labels: array2<int>, uf: UnionFind, i: int, j: int, minX: int, minY: int,
                    components: seq<seq<Coord>>, finalLabels: map<int, int>, newLabel: int, ghost L0: seq<seq<int>>, ghost rep: seq<Coord>)
    returns (components': seq<seq<Coord>>, finalLabels': map<int, int>, newLabel': int)
    requires labels != filled && labels.Length0 == filled.Length0 && labels.Length1 == filled.Length1
    requires 0 <= i < filled.Length0 && 0 <= j < filled.Length1 && labels[i, j] != 0
    requires uf.Valid() && |uf.parent| == |uf.root|
    requires AllVisited(Contents(filled), L0, uf.root, rep) && SameKeyIffConnected(Contents(filled), L0, uf.root)
    requires Pending(Contents(labels), L0, Coord(j, i))
    requires var g := Contents(filled); var gs := Group(g, Scanned(g, i, j));
      Numbered(L0, uf.root, finalLabels, gs) && newLabel == |gs| + 1 && components == Shift(gs, minX, minY)
    modifies labels, uf
    ensures uf.Valid() && uf.root == old(uf.root) && |uf.parent| == |uf.root|
    ensures Fg(Contents(filled), Coord(j, i)) && Pending(Contents(labels), L0, Coord(j + 1, i))
    ensures var g := Contents(filled); var gs := Group(g, Scanned(g, i, j) + [Coord(j, i)]);
      Numbered(L0, uf.root, finalLabels', gs) && newLabel' == |gs| + 1 && components' == Shift(gs, minX, minY)
  {
    hide Numbered, NumberedGroups, NumberedRoots, Group, FirstWith, Grouping, SameKeyIffConnected,
      AllVisited, FirstPass, Scanned, Ones, Shift, Contents, Connected, RasterIncreasing, Pending, Fg;
    ghost var g := Contents(filled);
    ghost var c := Coord(j, i);
    ghost var cells := Scanned(g, i, j);
    ghost var gs := Group(g, cells);
    GridCell(labels, i, j);
    GridCell(filled, i, j);
    PendingAt(Contents(labels), L0, c, c);
    FinalLabel(g, L0, uf.root, rep, c);
    ScannedSpec(g, i, j);
    OnesAreFg(g, cells);
    GroupSpec(g, cells);
    VisitCell(g, L0, uf.root, finalLabels, cells, c);
    var root := uf.Find(labels[i, j]);
    assert root == Key(L0, uf.root, c);
    finalLabels', newLabel' := finalLabels, newLabel;
    if root !in finalLabels' {
      finalLabels' := finalLabels'[root := newLabel'];
      newLabel' := newLabel' + 1;
    }
    var fin := finalLabels'[root];
    PendingStep(Contents(labels), L0, c, fin);
    Write(labels, i, j, fin);
    var pt := Coord(j + minX, i + minY);
    if fin > |components| {
      ShiftNew(gs, c, minX, minY);
      components' := components + [[pt]];
    } else {
      ShiftJoin(gs, fin - 1, c, minX, minY);
      components' := components[fin - 1 := components[fin - 1] + [pt]];
    }
  }
}
