/**
 * What connectedComponentLabeling (src/regionLabeling.js:116-211) computes on
 * a binary grid: the 1-cells in raster order, grouped into 4-connected
 * components, the components ordered by their first cell and each listing its
 * cells in raster order.
 */
module ComponentSpec {
  import opened Helper
  import opened Constants
  import opened Neighbourhood
  import PixelRows
  import ParticleProps

  /** c is a 1-cell of g (row c.y, column c.x). */
  predicate Fg(g: seq<seq<int>>, c: Coord)
  {
    0 <= c.y < |g| && 0 <= c.x < |g[c.y]| && g[c.y][c.x] == ONE
  }

  /** A walk through 1-cells, each step to a 4-neighbour. */
  predicate IsPath(g: seq<seq<int>>, p: seq<Coord>)
  {
    && |p| > 0
    && (forall k :: 0 <= k < |p| ==> Fg(g, p[k]))
    && (forall k :: 0 <= k < |p| - 1 ==> Adjacent4(p[k], p[k + 1]))
  }

  /** a and b are joined by a 4-connected walk through 1-cells. */
  ghost predicate Connected(g: seq<seq<int>>, a: Coord, b: Coord)
  {
    exists p :: IsPath(g, p) && p[0] == a && p[|p| - 1] == b
  }

  /** a comes before b in raster order (row by row, left to right). */
  predicate RasterBefore(a: Coord, b: Coord)
  {
    a.y < b.y || (a.y == b.y && a.x < b.x)
  }

  predicate RasterIncreasing(s: seq<Coord>)
  {
    forall a, b :: 0 <= a < b < |s| ==> RasterBefore(s[a], s[b])
  }

  // ---------------------------------------------------------------------------
  // Connectivity is an equivalence on the 1-cells
  // ---------------------------------------------------------------------------

  lemma ConnectedEnds(g: seq<seq<int>>, a: Coord, b: Coord)
    requires Connected(g, a, b)
    ensures Fg(g, a) && Fg(g, b)
  {
    var p :| IsPath(g, p) && p[0] == a && p[|p| - 1] == b;
    assert Fg(g, p[0]) && Fg(g, p[|p| - 1]);
  }

  lemma ConnectedRefl(g: seq<seq<int>>, a: Coord)
    requires Fg(g, a)
    ensures Connected(g, a, a)
  {
    assert IsPath(g, [a]);
  }

  /** One more step to a 4-neighbouring 1-cell. */
  lemma ConnectedStep(g: seq<seq<int>>, a: Coord, b: Coord, c: Coord)
    requires Connected(g, a, b) && Fg(g, c) && Adjacent4(b, c)
    ensures Connected(g, a, c)
  {
    var p :| IsPath(g, p) && p[0] == a && p[|p| - 1] == b;
    var q := p + [c];
    assert forall k :: 0 <= k < |p| ==> q[k] == p[k];
    assert IsPath(g, q);
  }

  lemma ConnectedSym(g: seq<seq<int>>, a: Coord, b: Coord)
    requires Connected(g, a, b)
    ensures Connected(g, b, a)
  {
    var p :| IsPath(g, p) && p[0] == a && p[|p| - 1] == b;
    var q := seq(|p|, k requires 0 <= k < |p| => p[|p| - 1 - k]);
    forall k | 0 <= k < |q| - 1
      ensures Adjacent4(q[k], q[k + 1])
    {
      assert Adjacent4(p[|p| - 2 - k], p[|p| - 1 - k]);
    }
    assert IsPath(g, q);
  }

  lemma ConnectedTrans(g: seq<seq<int>>, a: Coord, b: Coord, c: Coord)
    requires Connected(g, a, b) && Connected(g, b, c)
    ensures Connected(g, a, c)
  {
    var p :| IsPath(g, p) && p[0] == a && p[|p| - 1] == b;
    var q :| IsPath(g, q) && q[0] == b && q[|q| - 1] == c;
    var r := p + q[1..];
    forall k | 0 <= k < |r|
      ensures Fg(g, r[k])
    {
      if k >= |p| {
        assert r[k] == q[k - |p| + 1];
      }
    }
    forall k | 0 <= k < |r| - 1
      ensures Adjacent4(r[k], r[k + 1])
    {
      if k == |p| - 1 {
        assert r[k] == q[0] && r[k + 1] == q[1];
      } else if k >= |p| {
        assert r[k] == q[k - |p| + 1] && r[k + 1] == q[k - |p| + 2];
      }
    }
    assert IsPath(g, r);
  }

  // ---------------------------------------------------------------------------
  // The 1-cells in raster order
  // ---------------------------------------------------------------------------

  /** The 1-cells of row y among columns 0 .. j-1, left to right. */
  function RowOnes(g: seq<seq<int>>, y: nat, j: nat): (r: seq<Coord>)
    requires y < |g| && j <= |g[y]|
  {
    if j == 0 then []
    else RowOnes(g, y, j - 1) + (if g[y][j - 1] == ONE then [Coord(j - 1, y)] else [])
  }

  /** The 1-cells of rows 0 .. i-1 in raster order. */
  function Ones(g: seq<seq<int>>, i: nat): (r: seq<Coord>)
    requires i <= |g|
  {
    if i == 0 then [] else Ones(g, i - 1) + RowOnes(g, i - 1, |g[i - 1]|)
  }

  /** RowOnes holds exactly the 1-cells of row y left of column j, left to right. */
  lemma {:induction false} RowOnesSpec(g: seq<seq<int>>, y: nat, j: nat)
    requires y < |g| && j <= |g[y]|
    ensures forall c :: c in RowOnes(g, y, j) <==> Fg(g, c) && c.y == y && c.x < j
    ensures RasterIncreasing(RowOnes(g, y, j))
  {
    if j > 0 {
      RowOnesSpec(g, y, j - 1);
      var r := RowOnes(g, y, j - 1);
      var s := RowOnes(g, y, j);
      forall a, b | 0 <= a < b < |s|
        ensures RasterBefore(s[a], s[b])
      {
        if b >= |r| {
          assert s[a] == r[a] && r[a] in r;
        }
      }
    }
  }

  /** Ones holds exactly the 1-cells of rows above i, in strictly increasing raster order. */
  lemma {:induction false} OnesSpec(g: seq<seq<int>>, i: nat)
    requires i <= |g|
    ensures forall c :: c in Ones(g, i) <==> Fg(g, c) && c.y < i
    ensures RasterIncreasing(Ones(g, i))
  {
    if i > 0 {
      OnesSpec(g, i - 1);
      RowOnesSpec(g, i - 1, |g[i - 1]|);
      var p := Ones(g, i - 1);
      var r := RowOnes(g, i - 1, |g[i - 1]|);
      var s := Ones(g, i);
      forall a, b | 0 <= a < b < |s|
        ensures RasterBefore(s[a], s[b])
      {
        if a < |p| && b >= |p| {
          assert s[a] in p && s[b] == r[b - |p|] && r[b - |p|] in r;
        } else if a >= |p| {
          assert s[a] == r[a - |p|] && s[b] == r[b - |p|];
        }
      }
    }
  }

  // ---------------------------------------------------------------------------
  // Grouping cells into components, in order of first appearance
  // ---------------------------------------------------------------------------

  /** The first group whose first cell is connected to c, or |gs| when there is none. */
  ghost function FirstWith(g: seq<seq<int>>, gs: seq<seq<Coord>>, c: Coord): (l: nat)
    ensures l <= |gs|
    ensures l < |gs| ==> |gs[l]| > 0 && Connected(g, gs[l][0], c)
    ensures forall m :: 0 <= m < l ==> !(|gs[m]| > 0 && Connected(g, gs[m][0], c))
  {
    if gs == [] then 0
    else
      var n := |gs| - 1;
      var l := FirstWith(g, gs[..n], c);
      if l < n then l
      else if |gs[n]| > 0 && Connected(g, gs[n][0], c) then n
      else n + 1
  }

  /** The cells, in order, each joining the first group it is connected to or opening a new one. */
  ghost function Group(g: seq<seq<int>>, cells: seq<Coord>): (gs: seq<seq<Coord>>)
  {
    if cells == [] then []
    else
      var gs := Group(g, cells[..|cells| - 1]);
      var c := cells[|cells| - 1];
      var l := FirstWith(g, gs, c);
      if l == |gs| then gs + [[c]] else gs[l := gs[l] + [c]]
  }

  /** What the grouping keeps true of its groups. */
  ghost predicate Grouping(g: seq<seq<int>>, cells: seq<Coord>, gs: seq<seq<Coord>>)
  {
    && (forall l :: 0 <= l < |gs| ==> |gs[l]| > 0 && RasterIncreasing(gs[l]))
    && Linked(g, gs)
    && Leaders(g, gs)
    && multiset(PixelRows.Concat(gs)) == multiset(cells)
  }

  /** Every cell of a group is connected to the group's first cell. */
  ghost predicate Linked(g: seq<seq<int>>, gs: seq<seq<Coord>>)
    requires forall l :: 0 <= l < |gs| ==> |gs[l]| > 0
  {
    forall l, t :: 0 <= l < |gs| && 0 <= t < |gs[l]| ==> Connected(g, gs[l][0], gs[l][t])
  }

  /** The groups' first cells are pairwise unconnected and in raster order. */
  ghost predicate Leaders(g: seq<seq<int>>, gs: seq<seq<Coord>>)
    requires forall l :: 0 <= l < |gs| ==> |gs[l]| > 0
  {
    && (forall l, m :: 0 <= l < m < |gs| ==> !Connected(g, gs[l][0], gs[m][0]))
    && (forall l, m :: 0 <= l < m < |gs| ==> RasterBefore(gs[l][0], gs[m][0]))
  }

  /** Grouping raster-ordered 1-cells keeps Grouping. */
  lemma {:induction false} GroupSpec(g: seq<seq<int>>, cells: seq<Coord>)
    requires RasterIncreasing(cells) && forall k :: 0 <= k < |cells| ==> Fg(g, cells[k])
    ensures Grouping(g, cells, Group(g, cells))
  {
    if cells != [] {
      var n := |cells| - 1;
      var c := cells[n];
      var p := cells[..n];
      assert cells == p + [c];
      assert Fg(g, c);
      assert RasterIncreasing(p) && forall k :: 0 <= k < |p| ==> Fg(g, p[k]);
      var gs := Group(g, p);
      var l := FirstWith(g, gs, c);
      assert Group(g, cells) == if l == |gs| then gs + [[c]] else gs[l := gs[l] + [c]];
      hide Group, FirstWith, Grouping, Connected, RasterIncreasing, Fg;
      GroupSpec(g, p);
      AfterAll(g, cells, gs);
      if l == |gs| {
        GroupNew(g, p, gs, c);
      } else {
        GroupJoin(g, p, gs, c, l);
      }
    }
  }

  /** The last of raster-ordered cells comes after every cell grouped from the others. */
  lemma AfterAll(g: seq<seq<int>>, cells: seq<Coord>, gs: seq<seq<Coord>>)
    requires RasterIncreasing(cells) && cells != []
    requires multiset(PixelRows.Concat(gs)) == multiset(cells[..|cells| - 1])
    ensures forall m, t :: 0 <= m < |gs| && 0 <= t < |gs[m]| ==> RasterBefore(gs[m][t], cells[|cells| - 1])
  {
    var n := |cells| - 1;
    var p := cells[..n];
    forall m, t | 0 <= m < |gs| && 0 <= t < |gs[m]|
      ensures RasterBefore(gs[m][t], cells[n])
    {
      ParticleProps.ConcatHas(gs, m, t);
      assert gs[m][t] in multiset(p);
      var k :| 0 <= k < |p| && p[k] == gs[m][t];
      assert cells[k] == p[k];
    }
  }

  lemma GroupNew(g: seq<seq<int>>, p: seq<Coord>, gs: seq<seq<Coord>>, c: Coord)
    requires Grouping(g, p, gs) && Fg(g, c)
    requires forall m, t :: 0 <= m < |gs| && 0 <= t < |gs[m]| ==> RasterBefore(gs[m][t], c)
    requires forall m :: 0 <= m < |gs| ==> !Connected(g, gs[m][0], c)
    ensures Grouping(g, p + [c], gs + [[c]])
  {
    var gs' := gs + [[c]];
    ConnectedRefl(g, c);
    PixelRows.ConcatAppend(gs, [c]);
    assert forall m :: 0 <= m < |gs| ==> |gs[m]| > 0 && RasterIncreasing(gs[m]);
    assert Linked(g, gs) && Leaders(g, gs);
    hide Grouping, Connected, RasterBefore, Fg, Linked, Leaders;
    forall m | 0 <= m < |gs'|
      ensures |gs'[m]| > 0 && RasterIncreasing(gs'[m])
    {
      if m < |gs| {
        assert gs'[m] == gs[m];
      } else {
        assert gs'[m] == [c];
      }
    }
    NewLinked(g, gs, c);
    NewLeaders(g, gs, c);
  }

  lemma NewLinked(g: seq<seq<int>>, gs: seq<seq<Coord>>, c: Coord)
    requires forall m :: 0 <= m < |gs| ==> |gs[m]| > 0
    requires Linked(g, gs) && Connected(g, c, c)
    ensures (forall m :: 0 <= m < |gs + [[c]]| ==> |(gs + [[c]])[m]| > 0) && Linked(g, gs + [[c]])
  {
    var gs' := gs + [[c]];
    assert forall m :: 0 <= m < |gs| ==> gs'[m] == gs[m];
  }

  lemma NewLeaders(g: seq<seq<int>>, gs: seq<seq<Coord>>, c: Coord)
    requires forall m :: 0 <= m < |gs| ==> |gs[m]| > 0
    requires Leaders(g, gs)
    requires forall m :: 0 <= m < |gs| ==> RasterBefore(gs[m][0], c) && !Connected(g, gs[m][0], c)
    ensures (forall m :: 0 <= m < |gs + [[c]]| ==> |(gs + [[c]])[m]| > 0) && Leaders(g, gs + [[c]])
  {
    var gs' := gs + [[c]];
    assert forall m :: 0 <= m < |gs| ==> gs'[m] == gs[m];
    assert gs'[|gs|][0] == c;
  }

  lemma GroupJoin(g: seq<seq<int>>, p: seq<Coord>, gs: seq<seq<Coord>>, c: Coord, l: nat)
    requires Grouping(g, p, gs) && Fg(g, c) && l < |gs|
    requires forall m, t :: 0 <= m < |gs| && 0 <= t < |gs[m]| ==> RasterBefore(gs[m][t], c)
    requires Connected(g, gs[l][0], c)
    ensures Grouping(g, p + [c], gs[l := gs[l] + [c]])
  {
    var gs' := gs[l := gs[l] + [c]];
    ConcatUpdate(gs, l, c);
    assert forall m :: 0 <= m < |gs| ==> |gs[m]| > 0 && RasterIncreasing(gs[m]);
    assert Linked(g, gs) && Leaders(g, gs);
    hide Grouping;
    JoinShape(gs, c, l);
    JoinLinked(g, gs, c, l);
    JoinLeaders(g, gs, c, l);
  }

  lemma JoinShape(gs: seq<seq<Coord>>, c: Coord, l: nat)
    requires l < |gs| && forall m :: 0 <= m < |gs| ==> |gs[m]| > 0 && RasterIncreasing(gs[m])
    requires forall t :: 0 <= t < |gs[l]| ==> RasterBefore(gs[l][t], c)
    ensures var gs' := gs[l := gs[l] + [c]];
      forall m :: 0 <= m < |gs'| ==> |gs'[m]| > 0 && RasterIncreasing(gs'[m])
  {
    var row := gs[l] + [c];
    forall a, b | 0 <= a < b < |row|
      ensures RasterBefore(row[a], row[b])
    {
      if b == |gs[l]| {
        assert row[a] == gs[l][a];
      } else {
        assert row[a] == gs[l][a] && row[b] == gs[l][b];
      }
    }
  }

  lemma JoinLinked(g: seq<seq<int>>, gs: seq<seq<Coord>>, c: Coord, l: nat)
    requires l < |gs| && forall m :: 0 <= m < |gs| ==> |gs[m]| > 0
    requires Linked(g, gs) && Connected(g, gs[l][0], c)
    ensures var gs' := gs[l := gs[l] + [c]];
      (forall m :: 0 <= m < |gs'| ==> |gs'[m]| > 0) && Linked(g, gs')
  {
    var gs' := gs[l := gs[l] + [c]];
    forall m, t | 0 <= m < |gs'| && 0 <= t < |gs'[m]|
      ensures Connected(g, gs'[m][0], gs'[m][t])
    {
      if m != l {
        assert gs'[m] == gs[m];
      } else if t < |gs[l]| {
        assert gs'[m][0] == gs[l][0] && gs'[m][t] == gs[l][t];
      } else {
        assert gs'[m][0] == gs[l][0] && gs'[m][t] == c;
      }
    }
  }

  lemma JoinLeaders(g: seq<seq<int>>, gs: seq<seq<Coord>>, c: Coord, l: nat)
    requires l < |gs| && forall m :: 0 <= m < |gs| ==> |gs[m]| > 0
    requires Leaders(g, gs)
    ensures var gs' := gs[l := gs[l] + [c]];
      (forall m :: 0 <= m < |gs'| ==> |gs'[m]| > 0) && Leaders(g, gs')
  {
    var gs' := gs[l := gs[l] + [c]];
    assert forall m :: 0 <= m < |gs'| ==> gs'[m][0] == gs[m][0];
  }

  /** Appending a cell to one group appends it to the cells' multiset. */
  lemma {:induction false} ConcatUpdate(gs: seq<seq<Coord>>, l: nat, c: Coord)
    requires l < |gs|
    ensures multiset(PixelRows.Concat(gs[l := gs[l] + [c]])) == multiset(PixelRows.Concat(gs)) + multiset{c}
  {
    var n := |gs| - 1;
    var gs' := gs[l := gs[l] + [c]];
    if l == n {
      assert gs'[..n] == gs[..n];
    } else {
      ConcatUpdate(gs[..n], l, c);
      assert gs'[..n] == gs[..n][l := gs[..n][l] + [c]];
    }
  }

  /** Non-empty lists, each in raster order, ordered by their first cell. */
  predicate Ordered(gs: seq<seq<Coord>>)
  {
    && (forall l :: 0 <= l < |gs| ==> |gs[l]| > 0 && RasterIncreasing(gs[l]))
    && (forall l, m :: 0 <= l < m < |gs| ==> RasterBefore(gs[l][0], gs[m][0]))
  }

  /** Two listed cells share a list iff they are 4-connected. */
  ghost predicate SplitByConnectivity(g: seq<seq<int>>, gs: seq<seq<Coord>>)
  {
    forall l, m, a, b :: 0 <= l < |gs| && 0 <= m < |gs| && 0 <= a < |gs[l]| && 0 <= b < |gs[m]| ==>
      (l == m <==> Connected(g, gs[l][a], gs[m][b]))
  }

  /**
   * The components of g: every 1-cell lies in exactly one list; two 1-cells
   * share a list iff they are 4-connected; each list is in raster order and
   * the lists are ordered by their first cell.
   */
  lemma ComponentsSpec(g: seq<seq<int>>)
    ensures forall c :: c in Ones(g, |g|) <==> Fg(g, c)
    ensures multiset(PixelRows.Concat(Group(g, Ones(g, |g|)))) == multiset(Ones(g, |g|))
    ensures Ordered(Group(g, Ones(g, |g|)))
    ensures SplitByConnectivity(g, Group(g, Ones(g, |g|)))
  {
    var cells := Ones(g, |g|);
    OnesSpec(g, |g|);
    OnesAreFg(g, cells);
    GroupSpec(g, cells);
    var gs := Group(g, cells);
    hide Group, Ones, Connected, Fg;
    GroupingSplits(g, cells, gs);
  }

  lemma OnesAreFg(g: seq<seq<int>>, cells: seq<Coord>)
    requires forall c :: c in cells ==> Fg(g, c)
    ensures forall k :: 0 <= k < |cells| ==> Fg(g, cells[k])
  {
    forall k | 0 <= k < |cells|
      ensures Fg(g, cells[k])
    {
      assert cells[k] in cells;
    }
  }

  lemma GroupingSplits(g: seq<seq<int>>, cells: seq<Coord>, gs: seq<seq<Coord>>)
    requires Grouping(g, cells, gs)
    ensures Ordered(gs) && SplitByConnectivity(g, gs)
  {
    forall l, m, a, b | 0 <= l < |gs| && 0 <= m < |gs| && 0 <= a < |gs[l]| && 0 <= b < |gs[m]|
      ensures l == m <==> Connected(g, gs[l][a], gs[m][b])
    {
      SameGroup(g, cells, gs, l, m, a, b);
    }
  }

  lemma SameGroup(g: seq<seq<int>>, cells: seq<Coord>, gs: seq<seq<Coord>>, l: nat, m: nat, a: nat, b: nat)
    requires Grouping(g, cells, gs)
    requires l < |gs| && m < |gs| && a < |gs[l]| && b < |gs[m]|
    ensures l == m <==> Connected(g, gs[l][a], gs[m][b])
  {
    assert Connected(g, gs[l][0], gs[l][a]) && Connected(g, gs[m][0], gs[m][b]);
    if l == m {
      ConnectedSym(g, gs[l][0], gs[l][a]);
      ConnectedTrans(g, gs[l][a], gs[l][0], gs[m][b]);
    } else if Connected(g, gs[l][a], gs[m][b]) {
      ConnectedTrans(g, gs[l][0], gs[l][a], gs[m][b]);
      ConnectedSym(g, gs[m][0], gs[m][b]);
      ConnectedTrans(g, gs[l][0], gs[m][b], gs[m][0]);
      if m < l {
        ConnectedSym(g, gs[l][0], gs[m][0]);
      }
      assert false;
    }
  }
}
