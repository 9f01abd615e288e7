/**
 * The invariants of the two passes of connectedComponentLabeling
 * (src/regionLabeling.js:147-208) over a binary grid g, and the lemmas that
 * carry them from one cell to the next.
 *
 * First pass: cells are visited in raster order; a 1-cell with no labelled
 * upper or left neighbour opens a new label, otherwise it takes the smallest
 * neighbouring label and the neighbouring labels are united. rep[l] is the
 * cell that opened label l, root[l] the root find(l) reaches.
 *
 * Second pass: cells are visited again in raster order; the root of each
 * label is numbered 1, 2, ... in order of first appearance.
 */
module LabelingSpec {
  import opened Helper
  import opened Constants
  import opened ComponentSpec
  import Neighbourhood

  predicate InGrid<T>(g: seq<seq<T>>, c: Coord)
  {
    0 <= c.y < |g| && 0 <= c.x < |g[c.y]|
  }

  /** labels[c.y][c.x], or 0 off the grid. */
  function Label(L: seq<seq<int>>, c: Coord): int
  {
    if InGrid(L, c) then L[c.y][c.x] else 0
  }

  /** find(labels[c.y][c.x]) as the roots stand, or -1 when that label is not a node. */
  function Key(L: seq<seq<int>>, root: seq<int>, c: Coord): int
  {
    var l := Label(L, c);
    if 0 <= l < |root| then root[l] else -1
  }

  function Up(c: Coord): Coord
  {
    Coord(c.x, c.y - 1)
  }

  function Left(c: Coord): Coord
  {
    Coord(c.x - 1, c.y)
  }

  /** The cell after c in its row. */
  function Next(c: Coord): Coord
  {
    Coord(c.x + 1, c.y)
  }

  predicate SameShape(g: seq<seq<int>>, L: seq<seq<int>>)
  {
    |L| == |g| && forall y :: 0 <= y < |g| ==> |L[y]| == |g[y]|
  }

  /** labels[i][j] = v. */
  function Put(L: seq<seq<int>>, c: Coord, v: int): seq<seq<int>>
    requires InGrid(L, c)
  {
    L[c.y := L[c.y][c.x := v]]
  }

  lemma PutLabel(L: seq<seq<int>>, c: Coord, v: int, d: Coord)
    requires InGrid(L, c)
    ensures Label(Put(L, c, v), d) == if d == c then v else Label(L, d)
  {
  }

  // ---------------------------------------------------------------------------
  // First pass
  // ---------------------------------------------------------------------------

  /** The label of c lies in 0 .. n-1 and is non-zero exactly when c is a 1-cell before p. */
  predicate LabelOk(g: seq<seq<int>>, L: seq<seq<int>>, n: int, p: Coord, c: Coord)
  {
    0 <= Label(L, c) < n && (Label(L, c) != 0 <==> Fg(g, c) && RasterBefore(c, p))
  }

  /** The labels array after the cells before p are visited, n being the next new label. */
  ghost predicate Tentative(g: seq<seq<int>>, L: seq<seq<int>>, n: int, p: Coord)
  {
    && SameShape(g, L)
    && forall c {:trigger LabelOk(g, L, n, p, c)} :: InGrid(g, c) ==> LabelOk(g, L, n, p, c)
  }

  /** Label l was opened by the 1-cell rep[l], which is connected to the cell that opened its root. */
  ghost predicate RepOk(g: seq<seq<int>>, root: seq<int>, rep: seq<Coord>, l: int)
  {
    && 0 <= l < |rep| && l < |root|
    && Fg(g, rep[l]) && 1 <= root[l] < |rep| && Connected(g, rep[l], rep[root[l]])
  }

  ghost predicate RepsOk(g: seq<seq<int>>, root: seq<int>, rep: seq<Coord>)
  {
    && |root| == |rep| > 0
    && forall l {:trigger RepOk(g, root, rep, l)} :: 1 <= l < |rep| ==> RepOk(g, root, rep, l)
  }

  /**
   * A visited 1-cell is connected to the cell that opened its label, and it
   * shares its root with its upper and left neighbours when they are 1-cells.
   */
  ghost predicate CellOk(g: seq<seq<int>>, L: seq<seq<int>>, root: seq<int>, rep: seq<Coord>, c: Coord)
  {
    && 1 <= Label(L, c) < |rep|
    && Connected(g, c, rep[Label(L, c)])
    && (Fg(g, Up(c)) ==> Key(L, root, c) == Key(L, root, Up(c)))
    && (Fg(g, Left(c)) ==> Key(L, root, c) == Key(L, root, Left(c)))
  }

  ghost predicate CellsOk(g: seq<seq<int>>, L: seq<seq<int>>, root: seq<int>, rep: seq<Coord>, p: Coord)
  {
    forall c {:trigger CellOk(g, L, root, rep, c)} :: Fg(g, c) && RasterBefore(c, p) ==> CellOk(g, L, root, rep, c)
  }

  /** The state of the first pass once the cells before p are visited. */
  ghost predicate FirstPass(g: seq<seq<int>>, L: seq<seq<int>>, root: seq<int>, rep: seq<Coord>, p: Coord)
  {
    Tentative(g, L, |rep|, p) && RepsOk(g, root, rep) && CellsOk(g, L, root, rep, p)
  }

  lemma FirstPassReps(g: seq<seq<int>>, L: seq<seq<int>>, root: seq<int>, rep: seq<Coord>, p: Coord)
    requires FirstPass(g, L, root, rep, p)
    ensures RepsOk(g, root, rep)
  {
  }

  /** Nothing visited: every label is 0, label 0 is the only node. */
  lemma FirstPassStart(g: seq<seq<int>>, L: seq<seq<int>>)
    requires SameShape(g, L) && forall c :: InGrid(g, c) ==> Label(L, c) == 0
    ensures FirstPass(g, L, [0], [Coord(0, 0)], Coord(0, 0))
  {
    forall c | InGrid(g, c)
      ensures LabelOk(g, L, 1, Coord(0, 0), c)
    {
    }
  }

  /** A 0-cell keeps label 0. */
  lemma BackgroundStep(g: seq<seq<int>>, L: seq<seq<int>>, root: seq<int>, rep: seq<Coord>, c: Coord)
    requires FirstPass(g, L, root, rep, c) && InGrid(g, c) && !Fg(g, c)
    ensures FirstPass(g, L, root, rep, Next(c))
  {
    forall d | InGrid(g, d)
      ensures LabelOk(g, L, |rep|, Next(c), d)
    {
      assert LabelOk(g, L, |rep|, c, d);
    }
    forall d | Fg(g, d) && RasterBefore(d, Next(c))
      ensures CellOk(g, L, root, rep, d)
    {
      assert RasterBefore(d, c);
    }
  }

  /** The cells of a row are all visited once p is past its last column. */
  lemma RowEnd(g: seq<seq<int>>, L: seq<seq<int>>, root: seq<int>, rep: seq<Coord>, i: int)
    requires 0 <= i < |g| && FirstPass(g, L, root, rep, Coord(|g[i]|, i))
    ensures FirstPass(g, L, root, rep, Coord(0, i + 1))
  {
    var p, q := Coord(|g[i]|, i), Coord(0, i + 1);
    forall d | InGrid(g, d)
      ensures LabelOk(g, L, |rep|, q, d)
    {
      assert LabelOk(g, L, |rep|, p, d);
      assert RasterBefore(d, p) <==> RasterBefore(d, q);
    }
    forall d | Fg(g, d) && RasterBefore(d, q)
      ensures CellOk(g, L, root, rep, d)
    {
      assert RasterBefore(d, p);
    }
  }

  /** A 1-cell with no 1-cell above or to its left opens label n = |rep|. */
  lemma NewLabelStep(g: seq<seq<int>>, L: seq<seq<int>>, root: seq<int>, rep: seq<Coord>, c: Coord)
    requires FirstPass(g, L, root, rep, c) && Fg(g, c) && !Fg(g, Up(c)) && !Fg(g, Left(c))
    ensures InGrid(L, c)
    ensures FirstPass(g, Put(L, c, |rep|), root + [|root|], rep + [c], Next(c))
  {
    var n := |rep|;
    var L', root', rep' := Put(L, c, n), root + [n], rep + [c];
    forall d | InGrid(g, d)
      ensures LabelOk(g, L', n + 1, Next(c), d)
    {
      PutLabel(L, c, n, d);
      assert LabelOk(g, L, n, c, d);
    }
    forall l | 1 <= l < n + 1
      ensures RepOk(g, root', rep', l)
    {
      if l < n {
        assert RepOk(g, root, rep, l);
        assert rep'[root'[l]] == rep[root[l]];
      } else {
        ConnectedRefl(g, c);
      }
    }
    forall d | Fg(g, d) && RasterBefore(d, Next(c))
      ensures CellOk(g, L', root', rep', d)
    {
      PutLabel(L, c, n, d);
      if d == c {
        ConnectedRefl(g, c);
      } else {
        assert CellOk(g, L, root, rep, d);
        PutLabel(L, c, n, Up(d));
        PutLabel(L, c, n, Left(d));
        if Fg(g, Up(d)) {
          assert LabelOk(g, L, n, c, Up(d));
        }
        if Fg(g, Left(d)) {
          assert LabelOk(g, L, n, c, Left(d));
        }
      }
    }
  }

  /** The label of a visited 1-cell above or left of c is in 1 .. n-1 and its opener is connected to c. */
  lemma NeighbourLabel(g: seq<seq<int>>, L: seq<seq<int>>, root: seq<int>, rep: seq<Coord>, c: Coord, d: Coord)
    requires FirstPass(g, L, root, rep, c) && Fg(g, c) && Fg(g, d) && (d == Up(c) || d == Left(c))
    ensures 1 <= Label(L, d) < |rep| && Connected(g, c, rep[Label(L, d)])
  {
    assert CellOk(g, L, root, rep, d);
    assert Neighbourhood.Adjacent4(d, c);
    ConnectedSym(g, d, rep[Label(L, d)]);
    ConnectedStep(g, rep[Label(L, d)], d, c);
    ConnectedSym(g, rep[Label(L, d)], c);
  }

  /** Writing label s at c, before any union: c counts as visited, its own link comes later. */
  lemma JoinStart(g: seq<seq<int>>, L: seq<seq<int>>, root: seq<int>, rep: seq<Coord>, c: Coord, s: int)
    requires FirstPass(g, L, root, rep, c) && Fg(g, c) && 1 <= s < |rep|
    ensures InGrid(L, c)
    ensures Tentative(g, Put(L, c, s), |rep|, Next(c)) && CellsOk(g, Put(L, c, s), root, rep, c)
  {
    var n := |rep|;
    var L' := Put(L, c, s);
    forall d | InGrid(g, d)
      ensures LabelOk(g, L', n, Next(c), d)
    {
      PutLabel(L, c, s, d);
      assert LabelOk(g, L, n, c, d);
    }
    forall d | Fg(g, d) && RasterBefore(d, c)
      ensures CellOk(g, L', root, rep, d)
    {
      PutLabel(L, c, s, d);
      PutLabel(L, c, s, Up(d));
      PutLabel(L, c, s, Left(d));
      assert CellOk(g, L, root, rep, d);
    }
  }

  /** union(x, y) moved every node whose root was root[y] under root[x]. */
  ghost predicate Merged(root: seq<int>, root': seq<int>, x: int, y: int)
  {
    && |root'| == |root| && 0 <= x < |root| && 0 <= y < |root|
    && forall z :: 0 <= z < |root| ==> root'[z] == if root[z] == root[y] then root[x] else root[z]
  }

  /** Cells that shared a root still do. */
  lemma MergedKey(L: seq<seq<int>>, root: seq<int>, root': seq<int>, x: int, y: int, a: Coord, b: Coord)
    requires Merged(root, root', x, y)
    requires 0 <= Label(L, a) < |root| && 0 <= Key(L, root, a) == Key(L, root, b)
    ensures Key(L, root', a) == Key(L, root', b)
  {
  }

  /** A union of two labels whose openers are connected keeps the first-pass invariants. */
  lemma UnionStep(g: seq<seq<int>>, L: seq<seq<int>>, root: seq<int>, root': seq<int>, rep: seq<Coord>, p: Coord, x: int, y: int)
    requires RepsOk(g, root, rep) && CellsOk(g, L, root, rep, p) && Merged(root, root', x, y)
    requires 1 <= x < |rep| && 1 <= y < |rep| && Connected(g, rep[x], rep[y])
    ensures RepsOk(g, root', rep) && CellsOk(g, L, root', rep, p) && root'[x] == root'[y]
  {
    assert RepOk(g, root, rep, x) && RepOk(g, root, rep, y);
    var rx, ry := root[x], root[y];
    assert Connected(g, rep[ry], rep[rx]) by {
      ConnectedSym(g, rep[y], rep[ry]);
      ConnectedSym(g, rep[x], rep[y]);
      ConnectedTrans(g, rep[ry], rep[y], rep[x]);
      ConnectedTrans(g, rep[ry], rep[x], rep[rx]);
    }
    forall l | 1 <= l < |rep|
      ensures RepOk(g, root', rep, l)
    {
      assert RepOk(g, root, rep, l);
      if root[l] == ry {
        ConnectedTrans(g, rep[l], rep[ry], rep[rx]);
      }
    }
    forall d | Fg(g, d) && RasterBefore(d, p)
      ensures CellOk(g, L, root', rep, d)
    {
      assert CellOk(g, L, root, rep, d);
      assert RepOk(g, root, rep, Label(L, d));
      if Fg(g, Up(d)) {
        MergedKey(L, root, root', x, y, d, Up(d));
      }
      if Fg(g, Left(d)) {
        MergedKey(L, root, root', x, y, d, Left(d));
      }
    }
  }

  /** Writing s at c, with every neighbouring label sharing the root of s, leaves c as visited requires. */
  lemma JoinedCell(g: seq<seq<int>>, L: seq<seq<int>>, root: seq<int>, rep: seq<Coord>, c: Coord, s: int, nbs: seq<int>)
    requires InGrid(L, c) && |root| == |rep| && s in nbs
    requires forall nb :: nb in nbs ==> 1 <= nb < |rep| && Connected(g, c, rep[nb])
    requires forall nb :: nb in nbs ==> root[nb] == root[s]
    requires Fg(g, Up(c)) ==> Label(L, Up(c)) in nbs
    requires Fg(g, Left(c)) ==> Label(L, Left(c)) in nbs
    ensures CellOk(g, Put(L, c, s), root, rep, c)
  {
    PutLabel(L, c, s, c);
    PutLabel(L, c, s, Up(c));
    PutLabel(L, c, s, Left(c));
  }

  /** Once the unions made c share its root with its 1-neighbours, c counts as visited. */
  lemma JoinFinish(g: seq<seq<int>>, L: seq<seq<int>>, root: seq<int>, rep: seq<Coord>, c: Coord)
    requires Tentative(g, L, |rep|, Next(c)) && RepsOk(g, root, rep) && CellsOk(g, L, root, rep, c)
    requires Fg(g, c) && CellOk(g, L, root, rep, c)
    ensures FirstPass(g, L, root, rep, Next(c))
  {
    forall d | Fg(g, d) && RasterBefore(d, Next(c))
      ensures CellOk(g, L, root, rep, d)
    {
      if d != c {
        assert RasterBefore(d, c);
      }
    }
  }

  /** Two 1-cells share a root exactly when they are 4-connected. */
  ghost predicate SameKeyIffConnected(g: seq<seq<int>>, L: seq<seq<int>>, root: seq<int>)
  {
    forall a, b :: Fg(g, a) && Fg(g, b) ==> (Key(L, root, a) == Key(L, root, b) <==> Connected(g, a, b))
  }

  /** The first pass is over once every row is visited. */
  ghost predicate AllVisited(g: seq<seq<int>>, L: seq<seq<int>>, root: seq<int>, rep: seq<Coord>)
  {
    FirstPass(g, L, root, rep, Coord(0, |g|))
  }

  /** Every 1-cell of the grid is visited before Coord(0, |g|). */
  lemma Visited(g: seq<seq<int>>, c: Coord)
    requires InGrid(g, c)
    ensures RasterBefore(c, Coord(0, |g|))
  {
  }

  /** After the first pass the label of a 1-cell reaches the root of the opener of its label. */
  lemma ToOpener(g: seq<seq<int>>, L: seq<seq<int>>, root: seq<int>, rep: seq<Coord>, a: Coord)
    requires AllVisited(g, L, root, rep) && Fg(g, a)
    ensures 0 <= Key(L, root, a) < |rep| && Connected(g, a, rep[Key(L, root, a)])
  {
    Visited(g, a);
    assert CellOk(g, L, root, rep, a);
    var l := Label(L, a);
    assert RepOk(g, root, rep, l);
    ConnectedTrans(g, a, rep[l], rep[root[l]]);
  }

  /** Neighbouring 1-cells share a root after the first pass. */
  lemma AdjacentSameKey(g: seq<seq<int>>, L: seq<seq<int>>, root: seq<int>, rep: seq<Coord>, a: Coord, b: Coord)
    requires AllVisited(g, L, root, rep) && Fg(g, a) && Fg(g, b) && Neighbourhood.Adjacent4(a, b)
    ensures Key(L, root, a) == Key(L, root, b)
  {
    Visited(g, a);
    Visited(g, b);
    assert CellOk(g, L, root, rep, a) && CellOk(g, L, root, rep, b);
    if b == Up(a) || b == Left(a) {
    } else {
      assert a == Up(b) || a == Left(b);
    }
  }

  /** After the first pass a cell has a non-zero label exactly when it is a 1-cell. */
  lemma FinalLabel(g: seq<seq<int>>, L: seq<seq<int>>, root: seq<int>, rep: seq<Coord>, c: Coord)
    requires AllVisited(g, L, root, rep) && InGrid(g, c)
    ensures 0 <= Label(L, c) < |rep| == |root| && (Label(L, c) != 0 <==> Fg(g, c))
  {
    assert LabelOk(g, L, |rep|, Coord(0, |g|), c);
  }

  /** Along a walk of 1-cells the root never changes. */
  lemma {:induction false} PathSameKey(g: seq<seq<int>>, L: seq<seq<int>>, root: seq<int>, rep: seq<Coord>, path: seq<Coord>)
    requires AllVisited(g, L, root, rep) && IsPath(g, path)
    ensures Key(L, root, path[0]) == Key(L, root, path[|path| - 1])
    decreases |path|
  {
    if |path| > 1 {
      var n := |path| - 1;
      var front := path[..n];
      assert IsPath(g, front) by {
        assert forall k :: 0 <= k < |front| ==> front[k] == path[k];
      }
      PathSameKey(g, L, root, rep, front);
      AdjacentSameKey(g, L, root, rep, path[n - 1], path[n]);
    }
  }

  /** The first pass leaves two 1-cells with the same root exactly when they are 4-connected. */
  lemma FirstPassSound(g: seq<seq<int>>, L: seq<seq<int>>, root: seq<int>, rep: seq<Coord>)
    requires AllVisited(g, L, root, rep)
    ensures SameKeyIffConnected(g, L, root)
  {
    forall a, b | Fg(g, a) && Fg(g, b)
      ensures Key(L, root, a) == Key(L, root, b) <==> Connected(g, a, b)
    {
      if Key(L, root, a) == Key(L, root, b) {
        ToOpener(g, L, root, rep, a);
        ToOpener(g, L, root, rep, b);
        ConnectedSym(g, b, rep[Key(L, root, b)]);
        ConnectedTrans(g, a, rep[Key(L, root, a)], b);
      }
      if Connected(g, a, b) {
        var path :| IsPath(g, path) && path[0] == a && path[|path| - 1] == b;
        PathSameKey(g, L, root, rep, path);
      }
    }
  }

  // ---------------------------------------------------------------------------
  // Second pass
  // ---------------------------------------------------------------------------

  /** The 1-cells visited before Coord(j, i), in raster order. */
  function Scanned(g: seq<seq<int>>, i: nat, j: nat): seq<Coord>
    requires i < |g| && j <= |g[i]|
  {
    Ones(g, i) + RowOnes(g, i, j)
  }

  lemma ScannedSpec(g: seq<seq<int>>, i: nat, j: nat)
    requires i < |g| && j <= |g[i]|
    ensures forall c :: c in Scanned(g, i, j) <==> Fg(g, c) && RasterBefore(c, Coord(j, i))
    ensures RasterIncreasing(Scanned(g, i, j))
  {
    OnesSpec(g, i);
    RowOnesSpec(g, i, j);
    var a, b := Ones(g, i), RowOnes(g, i, j);
    var s := a + b;
    forall x, y | 0 <= x < y < |s|
      ensures RasterBefore(s[x], s[y])
    {
      if y < |a| {
        assert s[x] == a[x] && s[y] == a[y];
      } else if x >= |a| {
        assert s[x] == b[x - |a|] && s[y] == b[y - |a|];
      } else {
        assert s[x] == a[x] && s[y] == b[y - |a|];
        assert a[x] in a && b[y - |a|] in b;
      }
    }
  }

  lemma ScannedNext(g: seq<seq<int>>, i: nat, j: nat)
    requires i < |g| && j < |g[i]|
    ensures Scanned(g, i, j + 1) == Scanned(g, i, j) + if Fg(g, Coord(j, i)) then [Coord(j, i)] else []
  {
  }

  /** A row's scan starts with the rows above it and, once over, covers it too. */
  lemma ScannedRow(g: seq<seq<int>>, i: nat)
    requires i < |g|
    ensures Scanned(g, i, 0) == Ones(g, i) && Scanned(g, i, |g[i]|) == Ones(g, i + 1)
  {
  }

  /** Grouping one more cell. */
  lemma GroupSnoc(g: seq<seq<int>>, cells: seq<Coord>, c: Coord)
    ensures Group(g, cells + [c]) ==
      var gs := Group(g, cells);
      var l := FirstWith(g, gs, c);
      if l == |gs| then gs + [[c]] else gs[l := gs[l] + [c]]
  {
    assert (cells + [c])[..|cells|] == cells;
  }

  /** finalLabels gives the root of the l-th group's first cell the number l + 1, and holds no other root. */
  ghost predicate Numbered(L: seq<seq<int>>, root: seq<int>, fl: map<int, int>, gs: seq<seq<Coord>>)
  {
    NumberedGroups(L, root, fl, gs) && NumberedRoots(L, root, fl, gs)
  }

  ghost predicate NumberedGroups(L: seq<seq<int>>, root: seq<int>, fl: map<int, int>, gs: seq<seq<Coord>>)
  {
    forall l :: 0 <= l < |gs| ==> |gs[l]| > 0 && Key(L, root, gs[l][0]) in fl && fl[Key(L, root, gs[l][0])] == l + 1
  }

  ghost predicate NumberedRoots(L: seq<seq<int>>, root: seq<int>, fl: map<int, int>, gs: seq<seq<Coord>>)
  {
    forall r :: r in fl ==> 1 <= fl[r] <= |gs| && |gs[fl[r] - 1]| > 0 && Key(L, root, gs[fl[r] - 1][0]) == r
  }

  /** The first cell of a group is a 1-cell. */
  lemma LeaderFg(g: seq<seq<int>>, cells: seq<Coord>, gs: seq<seq<Coord>>, l: int)
    requires Grouping(g, cells, gs) && 0 <= l < |gs|
    ensures |gs[l]| > 0 && Fg(g, gs[l][0])
  {
    assert Linked(g, gs);
    assert Connected(g, gs[l][0], gs[l][0]);
    ConnectedEnds(g, gs[l][0], gs[l][0]);
  }

  lemma NumberedAt(L: seq<seq<int>>, root: seq<int>, fl: map<int, int>, gs: seq<seq<Coord>>, l: int)
    requires Numbered(L, root, fl, gs) && 0 <= l < |gs|
    ensures |gs[l]| > 0 && Key(L, root, gs[l][0]) in fl && fl[Key(L, root, gs[l][0])] == l + 1
  {
  }

  lemma NumberedOf(L: seq<seq<int>>, root: seq<int>, fl: map<int, int>, gs: seq<seq<Coord>>, r: int)
    requires Numbered(L, root, fl, gs) && r in fl
    ensures 1 <= fl[r] <= |gs| && |gs[fl[r] - 1]| > 0 && Key(L, root, gs[fl[r] - 1][0]) == r
  {
  }

  lemma SameKeyAt(g: seq<seq<int>>, L: seq<seq<int>>, root: seq<int>, a: Coord, b: Coord)
    requires SameKeyIffConnected(g, L, root) && Fg(g, a) && Fg(g, b)
    ensures Key(L, root, a) == Key(L, root, b) <==> Connected(g, a, b)
  {
  }

  /** The group a 1-cell joins is the one whose root finalLabels already numbers, if any. */
  lemma FindGroup(g: seq<seq<int>>, L: seq<seq<int>>, root: seq<int>, fl: map<int, int>, cells: seq<Coord>, c: Coord)
    requires SameKeyIffConnected(g, L, root) && Grouping(g, cells, Group(g, cells))
    requires Numbered(L, root, fl, Group(g, cells)) && Fg(g, c)
    ensures Key(L, root, c) in fl ==> FirstWith(g, Group(g, cells), c) == fl[Key(L, root, c)] - 1
    ensures Key(L, root, c) !in fl ==> FirstWith(g, Group(g, cells), c) == |Group(g, cells)|
  {
    var gs := Group(g, cells);
    var k := Key(L, root, c);
    var l := FirstWith(g, gs, c);
    hide Numbered, SameKeyIffConnected, Grouping, Group, FirstWith, Key;
    if l < |gs| {
      LeaderFg(g, cells, gs, l);
      SameKeyAt(g, L, root, gs[l][0], c);
      NumberedAt(L, root, fl, gs, l);
    } else if k in fl {
      NumberedOf(L, root, fl, gs, k);
      LeaderFg(g, cells, gs, fl[k] - 1);
      SameKeyAt(g, L, root, gs[fl[k] - 1][0], c);
    }
  }

  /** Visiting a 1-cell: a root seen for the first time gets the next number. */
  lemma NumberedStep(g: seq<seq<int>>, L: seq<seq<int>>, root: seq<int>, fl: map<int, int>, cells: seq<Coord>, c: Coord)
    requires SameKeyIffConnected(g, L, root) && Grouping(g, cells, Group(g, cells))
    requires Numbered(L, root, fl, Group(g, cells)) && Fg(g, c)
    ensures var k := Key(L, root, c);
      Numbered(L, root, if k in fl then fl else fl[k := |Group(g, cells)| + 1], Group(g, cells + [c]))
  {
    hide Group, FirstWith, SameKeyIffConnected, Grouping, Numbered;
    var gs := Group(g, cells);
    var k := Key(L, root, c);
    FindGroup(g, L, root, fl, cells, c);
    GroupSnoc(g, cells, c);
    var l := FirstWith(g, gs, c);
    if k in fl {
      NumberedOf(L, root, fl, gs, k);
      JoinNumbered(L, root, fl, gs, l, c);
      assert Group(g, cells + [c]) == gs[l := gs[l] + [c]];
    } else {
      NewNumbered(L, root, fl, gs, c);
      assert Group(g, cells + [c]) == gs + [[c]];
    }
  }

  /**
   * One second-pass visit of the 1-cell c: finalLabels gains its root if the
   * root is new, and c joins the group that number names, which is a new
   * last group exactly when the number is new.
   */
  lemma VisitCell(g: seq<seq<int>>, L: seq<seq<int>>, root: seq<int>, fl: map<int, int>, cells: seq<Coord>, c: Coord)
    requires SameKeyIffConnected(g, L, root) && Grouping(g, cells, Group(g, cells))
    requires Numbered(L, root, fl, Group(g, cells)) && Fg(g, c)
    ensures var gs, k := Group(g, cells), Key(L, root, c);
      var fl' := if k in fl then fl else fl[k := |gs| + 1];
      && Numbered(L, root, fl', Group(g, cells + [c]))
      && 1 <= fl'[k] <= |gs| + 1 && (fl'[k] == |gs| + 1 <==> k !in fl)
      && Group(g, cells + [c]) == if k !in fl then gs + [[c]] else gs[fl'[k] - 1 := gs[fl'[k] - 1] + [c]]
  {
    hide Numbered, NumberedGroups, NumberedRoots, SameKeyIffConnected, Grouping, Group, FirstWith;
    var gs, k := Group(g, cells), Key(L, root, c);
    NumberedStep(g, L, root, fl, cells, c);
    FindGroup(g, L, root, fl, cells, c);
    GroupSnoc(g, cells, c);
    if k in fl {
      NumberedOf(L, root, fl, gs, k);
    }
  }

  lemma JoinNumbered(L: seq<seq<int>>, root: seq<int>, fl: map<int, int>, gs: seq<seq<Coord>>, l: int, c: Coord)
    requires Numbered(L, root, fl, gs) && 0 <= l < |gs|
    ensures Numbered(L, root, fl, gs[l := gs[l] + [c]])
  {
    var gs' := gs[l := gs[l] + [c]];
    forall m | 0 <= m < |gs'|
      ensures |gs'[m]| > 0 && Key(L, root, gs'[m][0]) in fl && fl[Key(L, root, gs'[m][0])] == m + 1
    {
      hide Numbered;
      NumberedAt(L, root, fl, gs, m);
      assert gs'[m][0] == gs[m][0];
    }
    forall r | r in fl
      ensures 1 <= fl[r] <= |gs'| && |gs'[fl[r] - 1]| > 0 && Key(L, root, gs'[fl[r] - 1][0]) == r
    {
      hide Numbered;
      NumberedOf(L, root, fl, gs, r);
      assert gs'[fl[r] - 1][0] == gs[fl[r] - 1][0];
    }
  }

  lemma NewNumbered(L: seq<seq<int>>, root: seq<int>, fl: map<int, int>, gs: seq<seq<Coord>>, c: Coord)
    requires Numbered(L, root, fl, gs) && Key(L, root, c) !in fl
    ensures Numbered(L, root, fl[Key(L, root, c) := |gs| + 1], gs + [[c]])
  {
    NewGroups(L, root, fl, gs, c);
    NewRoots(L, root, fl, gs, c);
  }

  lemma NewGroups(L: seq<seq<int>>, root: seq<int>, fl: map<int, int>, gs: seq<seq<Coord>>, c: Coord)
    requires NumberedGroups(L, root, fl, gs) && Key(L, root, c) !in fl
    ensures NumberedGroups(L, root, fl[Key(L, root, c) := |gs| + 1], gs + [[c]])
  {
    var k := Key(L, root, c);
    var fl', gs' := fl[k := |gs| + 1], gs + [[c]];
    forall m | 0 <= m < |gs'|
      ensures |gs'[m]| > 0 && Key(L, root, gs'[m][0]) in fl' && fl'[Key(L, root, gs'[m][0])] == m + 1
    {
      if m < |gs| {
        assert gs'[m] == gs[m];
      }
    }
  }

  lemma NewRoots(L: seq<seq<int>>, root: seq<int>, fl: map<int, int>, gs: seq<seq<Coord>>, c: Coord)
    requires NumberedRoots(L, root, fl, gs)
    ensures NumberedRoots(L, root, fl[Key(L, root, c) := |gs| + 1], gs + [[c]])
  {
    var k := Key(L, root, c);
    var fl', gs' := fl[k := |gs| + 1], gs + [[c]];
    forall r | r in fl'
      ensures 1 <= fl'[r] <= |gs'| && |gs'[fl'[r] - 1]| > 0 && Key(L, root, gs'[fl'[r] - 1][0]) == r
    {
      if r != k {
        assert gs'[fl[r] - 1] == gs[fl[r] - 1];
      }
    }
  }

  /** The cells before p still hold their first-pass labels. */
  ghost predicate Pending(L: seq<seq<int>>, L0: seq<seq<int>>, p: Coord)
  {
    && |L| == |L0| && (forall y :: 0 <= y < |L| ==> |L[y]| == |L0[y]|)
    && forall c {:trigger Label(L, c)} :: !RasterBefore(c, p) ==> Label(L, c) == Label(L0, c)
  }

  lemma PendingAt(L: seq<seq<int>>, L0: seq<seq<int>>, p: Coord, c: Coord)
    requires Pending(L, L0, p) && !RasterBefore(c, p)
    ensures Label(L, c) == Label(L0, c)
  {
  }

  lemma PendingStep(L: seq<seq<int>>, L0: seq<seq<int>>, c: Coord, v: int)
    requires Pending(L, L0, c) && InGrid(L, c)
    ensures Pending(Put(L, c, v), L0, Next(c))
  {
    forall d | !RasterBefore(d, Next(c))
      ensures Label(Put(L, c, v), d) == Label(L0, d)
    {
      PutLabel(L, c, v, d);
    }
  }

  lemma PendingSkip(L: seq<seq<int>>, L0: seq<seq<int>>, c: Coord)
    requires Pending(L, L0, c)
    ensures Pending(L, L0, Next(c))
  {
    forall d | !RasterBefore(d, Next(c))
      ensures Label(L, d) == Label(L0, d)
    {
    }
  }

  lemma PendingRow(L: seq<seq<int>>, L0: seq<seq<int>>, i: int)
    requires 0 <= i < |L| && Pending(L, L0, Coord(|L[i]|, i))
    ensures Pending(L, L0, Coord(0, i + 1))
  {
    forall d | !RasterBefore(d, Coord(0, i + 1))
      ensures Label(L, d) == Label(L0, d)
    {
      assert !RasterBefore(d, Coord(|L[i]|, i)) || !InGrid(L, d);
    }
  }

  /** The lists with every cell moved by (dx, dy). */
  function Shift(gs: seq<seq<Coord>>, dx: int, dy: int): (r: seq<seq<Coord>>)
    ensures |r| == |gs|
    ensures forall l :: 0 <= l < |gs| ==> |r[l]| == |gs[l]|
    ensures forall l, t :: 0 <= l < |gs| && 0 <= t < |gs[l]| ==> r[l][t] == Coord(gs[l][t].x + dx, gs[l][t].y + dy)
  {
    seq(|gs|, l requires 0 <= l < |gs| =>
      seq(|gs[l]|, t requires 0 <= t < |gs[l]| => Coord(gs[l][t].x + dx, gs[l][t].y + dy)))
  }

  /** Moving the lists back by (-dx, -dy) gives them back: the shift loses no cell. */
  lemma ShiftInverse(gs: seq<seq<Coord>>, dx: int, dy: int)
    ensures Shift(Shift(gs, dx, dy), -dx, -dy) == gs
  {
    var a := Shift(Shift(gs, dx, dy), -dx, -dy);
    forall l | 0 <= l < |gs|
      ensures a[l] == gs[l]
    {
    }
  }

  lemma ShiftNew(gs: seq<seq<Coord>>, c: Coord, dx: int, dy: int)
    ensures Shift(gs + [[c]], dx, dy) == Shift(gs, dx, dy) + [[Coord(c.x + dx, c.y + dy)]]
  {
    var a, b := Shift(gs + [[c]], dx, dy), Shift(gs, dx, dy) + [[Coord(c.x + dx, c.y + dy)]];
    forall l | 0 <= l < |a|
      ensures a[l] == b[l]
    {
      if l < |gs| {
        assert (gs + [[c]])[l] == gs[l];
      }
    }
  }

  lemma ShiftJoin(gs: seq<seq<Coord>>, l: int, c: Coord, dx: int, dy: int)
    requires 0 <= l < |gs|
    ensures Shift(gs[l := gs[l] + [c]], dx, dy) == Shift(gs, dx, dy)[l := Shift(gs, dx, dy)[l] + [Coord(c.x + dx, c.y + dy)]]
  {
    var a, b := Shift(gs[l := gs[l] + [c]], dx, dy), Shift(gs, dx, dy)[l := Shift(gs, dx, dy)[l] + [Coord(c.x + dx, c.y + dy)]];
    forall m | 0 <= m < |a|
      ensures a[m] == b[m]
    {
    }
  }
}
