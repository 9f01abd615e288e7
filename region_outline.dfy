/**
 * extractOuterBoundary and extractInnerBoundary (src/regionLabeling.js:316-354):
 * the outer boundary of a region is the Moore trace of its filled image,
 * moved back to image coordinates; the inner boundaries are the outer
 * boundaries of the 4-connected components of its holes.
 */
module RegionOutline {
  import opened Helper
  import opened PixelRows
  import opened Neighbourhood
  import opened RegionFill
  import opened ComponentSpec
  import opened LabelingSpec
  import opened RegionComponents
  import opened BoundaryTrace
  import ParticleProps

  predicate InBox(b: Box, c: Coord)
  {
    b.minX <= c.x <= b.maxX && b.minY <= c.y <= b.maxY
  }

  /** What fillBinaryEmptyPixels needs of its rows and box for the arrays it allocates. */
  predicate Fits(rs: seq<seq<Coord>>, box: Box)
  {
    NonEmptyRows(rs) && (box == NO_BOX ==> rs != []) && Height(Bounds(rs, box)) >= 0 && Width(Bounds(rs, box)) >= 0
  }

  /** [x + dx, y + dy] for every point, in order. */
  function Translate(s: seq<Coord>, dx: int, dy: int): (r: seq<Coord>)
    ensures |r| == |s|
    ensures forall k :: 0 <= k < |s| ==> r[k] == Coord(s[k].x + dx, s[k].y + dy)
  {
    seq(|s|, k requires 0 <= k < |s| => Coord(s[k].x + dx, s[k].y + dy))
  }

  /** Translating back by (-dx, -dy) gives the points back: the translation loses no point. */
  lemma TranslateInverse(s: seq<Coord>, dx: int, dy: int)
    ensures Translate(Translate(s, dx, dy), -dx, -dy) == s
  {
  }

  /** The outer boundary: the trace of the filled image, in image coordinates. */
  ghost function OuterBoundary(rs: seq<seq<Coord>>, box: Box): seq<Coord>
    requires Fits(rs, box)
  {
    var b := Bounds(rs, box);
    Translate(Traced(FilledGrid(rs, box, false), []), b.minX, b.minY)
  }

  method ExtractOuterBoundary(groupedPixelsByRow: seq<seq<Coord>>, box: Box) returns (boundary: seq<Coord>)
    requires Fits(groupedPixelsByRow, box)
    ensures boundary == OuterBoundary(groupedPixelsByRow, box)
  {
    var minX, minY, filled := FillBinaryEmptyPixels(groupedPixelsByRow, box, false);
    ghost var g := FilledGrid(groupedPixelsByRow, box, false);
    assert Contents(filled) == g by {
      forall r | 0 <= r < |g|
        ensures Contents(filled)[r] == g[r]
      {
      }
    }
    var traced := TraceBoundary(Contents(filled), []);
    boundary := Translate(traced, minX, minY);
  }

  /** The 1-cells of the filled image are exactly the input pixels inside the box, moved to the box corner. */
  lemma FilledOnes(rs: seq<seq<Coord>>, box: Box)
    requires Fits(rs, box) && WellGrouped(rs) && NotBefore(rs, Bounds(rs, box).minX, Bounds(rs, box).minY)
    ensures var b := Bounds(rs, box); var g := FilledGrid(rs, box, false);
      forall c {:trigger Fg(g, c)} ::
        Fg(g, c) <==> InBox(b, Coord(c.x + b.minX, c.y + b.minY)) && InGroups(rs, Coord(c.x + b.minX, c.y + b.minY))
  {
    var b := Bounds(rs, box);
    var g := FilledGrid(rs, box, false);
    forall c {:trigger Fg(g, c)}
      ensures Fg(g, c) <==> InBox(b, Coord(c.x + b.minX, c.y + b.minY)) && InGroups(rs, Coord(c.x + b.minX, c.y + b.minY))
    {
      if 0 <= c.y < Height(b) && 0 <= c.x < Width(b) {
        FillCellMeaning(rs, b, false, c.y, c.x);
      }
    }
  }

  /**
   * The outer boundary lists distinct input pixels inside the box; it is
   * empty exactly when no input pixel lies in the box, and otherwise opens
   * with the first of them in raster order.
   */
  lemma OuterBoundarySpec(rs: seq<seq<Coord>>, box: Box)
    requires Fits(rs, box) && WellGrouped(rs) && NotBefore(rs, Bounds(rs, box).minX, Bounds(rs, box).minY)
    ensures var o := OuterBoundary(rs, box); var b := Bounds(rs, box);
      && Distinct(o)
      && (forall p :: p in o ==> InGroups(rs, p) && InBox(b, p))
      && (o == [] <==> forall p :: InGroups(rs, p) ==> !InBox(b, p))
      && (o != [] ==> forall p :: InGroups(rs, p) && InBox(b, p) ==> !RasterBefore(p, o[0]))
  {
    hide OuterBoundary, FilledGrid, Traced, Bounds, TightBox, InGroups, Fg, FillCell, WellGrouped, NotBefore;
    var b := Bounds(rs, box);
    var g := FilledGrid(rs, box, false);
    OuterIs(rs, box);
    FilledOnes(rs, box);
    TracedSpec(g);
    TranslatedTrace(rs, b, g, Traced(g, []));
  }

  /** The facts about the trace t of g, carried over to image coordinates. */
  lemma TranslatedTrace(rs: seq<seq<Coord>>, b: Box, g: seq<seq<int>>, t: seq<Coord>)
    requires forall c {:trigger Fg(g, c)} ::
      Fg(g, c) <==> InBox(b, Coord(c.x + b.minX, c.y + b.minY)) && InGroups(rs, Coord(c.x + b.minX, c.y + b.minY))
    requires Distinct(t) && (t == [] <==> forall c :: !Fg(g, c)) && (t != [] ==> FirstCell(g, t[0]))
    requires forall c :: c in t ==> Fg(g, c)
    ensures var o := Translate(t, b.minX, b.minY);
      && Distinct(o)
      && (forall p :: p in o ==> InGroups(rs, p) && InBox(b, p))
      && (o == [] <==> forall p :: InGroups(rs, p) ==> !InBox(b, p))
      && (o != [] ==> forall p :: InGroups(rs, p) && InBox(b, p) ==> !RasterBefore(p, o[0]))
  {
    hide InGroups;
    var o := Translate(t, b.minX, b.minY);
    forall p | p in o
      ensures InGroups(rs, p) && InBox(b, p)
    {
      var k :| 0 <= k < |o| && o[k] == p;
      assert t[k] in t;
    }
    if t == [] {
      forall p
        ensures !(InGroups(rs, p) && InBox(b, p))
      {
        var c := Coord(p.x - b.minX, p.y - b.minY);
        assert Coord(c.x + b.minX, c.y + b.minY) == p;
        assert !Fg(g, c);
      }
    } else {
      assert t[0] in t;
      forall p | InGroups(rs, p) && InBox(b, p)
        ensures !RasterBefore(p, o[0])
      {
        var c := Coord(p.x - b.minX, p.y - b.minY);
        assert Coord(c.x + b.minX, c.y + b.minY) == p;
        assert Fg(g, c);
      }
    }
  }

  lemma OuterIs(rs: seq<seq<Coord>>, box: Box)
    requires Fits(rs, box)
    ensures OuterBoundary(rs, box) ==
      Translate(Traced(FilledGrid(rs, box, false), []), Bounds(rs, box).minX, Bounds(rs, box).minY)
  {
    hide FilledGrid, Traced, Bounds;
  }

  /** With the tight box the outer boundary is never empty and opens with the first pixel of the first row. */
  lemma TightOuterBoundary(rs: seq<seq<Coord>>)
    requires rs != [] && WellGrouped(rs)
    ensures Fits(rs, NO_BOX)
    ensures var o := OuterBoundary(rs, NO_BOX);
      && o != [] && o[0] == rs[0][0]
      && Distinct(o)
      && forall p :: p in o ==> InGroups(rs, p)
  {
    hide OuterBoundary, FilledGrid, Traced, TightBox, FillCell;
    TightFill(rs);
    TightBoxSpec(rs);
    var b := TightBox(rs);
    assert Bounds(rs, NO_BOX) == b;
    assert InGroups(rs, rs[0][0]) && InBox(b, rs[0][0]);
    OuterBoundarySpec(rs, NO_BOX);
    var o := OuterBoundary(rs, NO_BOX);
    assert o[0] in o;
    hide InGroups, NotBefore, WellGrouped;
    TightFirst(rs, o[0]);
  }

  /** The first pixel of the first row comes first in raster order. */
  lemma TightFirst(rs: seq<seq<Coord>>, p: Coord)
    requires rs != [] && WellGrouped(rs) && InGroups(rs, p) && !RasterBefore(rs[0][0], p)
    ensures p == rs[0][0]
  {
    var k, t :| 0 <= k < |rs| && 0 <= t < |rs[k]| && rs[k][t] == p;
    RasterFirst(rs, k, t);
  }

  lemma RasterFirst(rs: seq<seq<Coord>>, k: nat, t: nat)
    requires WellGrouped(rs) && k < |rs| && t < |rs[k]|
    ensures rs[k][t] == rs[0][0] || RasterBefore(rs[0][0], rs[k][t])
  {
    if k > 0 {
      assert rs[0][0].y < rs[k][0].y == rs[k][t].y;
    } else if t > 0 {
      assert rs[0][t].y == rs[0][0].y && rs[0][0].x < rs[0][t].x;
    }
  }

  // ---------------------------------------------------------------------------
  // Inner boundaries
  // ---------------------------------------------------------------------------

  /** What connectedComponentLabeling needs, and pixels on the grid so that groupPixelsByRow applies. */
  predicate InnerFits(rs: seq<seq<Coord>>, box: Box)
  {
    Fits(rs, box) && Height(Bounds(rs, box)) >= 1 && Bounds(rs, box).minY >= 0
  }

  /** The components of the holes: the 1-cells of the reverse fill, split by 4-connectivity. */
  ghost function InnerComponents(rs: seq<seq<Coord>>, box: Box): seq<seq<Coord>>
    requires InnerFits(rs, box)
  {
    var g := FilledGrid(rs, box, true);
    var b := Bounds(rs, box);
    Shift(Group(g, Ones(g, |g|)), b.minX, b.minY)
  }

  lemma InnerIs(rs: seq<seq<Coord>>, box: Box)
    requires InnerFits(rs, box)
    ensures InnerComponents(rs, box) ==
      Shift(Group(FilledGrid(rs, box, true), Ones(FilledGrid(rs, box, true), |FilledGrid(rs, box, true)|)),
        Bounds(rs, box).minX, Bounds(rs, box).minY)
  {
    hide FilledGrid, Bounds, Group, Ones;
  }

  /** The boundaries extractInnerBoundary returns, one per hole component. */
  ghost function InnerBoundaries(rs: seq<seq<Coord>>, box: Box): (r: seq<seq<Coord>>)
    requires InnerFits(rs, box)
    ensures |r| == |InnerComponents(rs, box)|
  {
    var comps := InnerComponents(rs, box);
    seq(|comps|, k requires 0 <= k < |comps| =>
      ComponentFits(rs, box, k); OuterBoundary(GroupRows(comps[k]), box))
  }

  method ExtractInnerBoundary(groupedPixelsByRow: seq<seq<Coord>>, box: Box) returns (boundaries: seq<seq<Coord>>)
    requires InnerFits(groupedPixelsByRow, box)
    ensures boundaries == InnerBoundaries(groupedPixelsByRow, box)
  {
    hide InnerBoundaries, InnerComponents, OuterBoundary, FilledGrid, Bounds, TightBox, Group, Ones, GroupRows,
      FillCell, Fg, SplitByConnectivity, Ordered;
    var innerComponents := ConnectedComponentLabeling(groupedPixelsByRow, box, true);
    InnerIs(groupedPixelsByRow, box);
    ghost var target := InnerBoundaries(groupedPixelsByRow, box);
    InnerBoundariesAt(groupedPixelsByRow, box);
    boundaries := [];
    for k := 0 to |innerComponents|
      invariant |boundaries| == k
      invariant forall l :: 0 <= l < k ==> boundaries[l] == target[l]
    {
      ComponentFits(groupedPixelsByRow, box, k);
      var groupedPixelsByRow2 := GroupPixelsByRow(innerComponents[k]);
      var boundary := ExtractOuterBoundary(groupedPixelsByRow2, box);
      boundaries := boundaries + [boundary];
    }
  }

  lemma InnerBoundariesAt(rs: seq<seq<Coord>>, box: Box)
    requires InnerFits(rs, box)
    ensures |InnerBoundaries(rs, box)| == |InnerComponents(rs, box)|
    ensures forall k :: 0 <= k < |InnerComponents(rs, box)| ==>
      Fits(GroupRows(InnerComponents(rs, box)[k]), box) &&
      InnerBoundaries(rs, box)[k] == OuterBoundary(GroupRows(InnerComponents(rs, box)[k]), box)
  {
    hide InnerComponents, OuterBoundary, GroupRows, Fits;
    forall k | 0 <= k < |InnerComponents(rs, box)|
      ensures Fits(GroupRows(InnerComponents(rs, box)[k]), box)
    {
      ComponentFits(rs, box, k);
    }
  }

  /** Each hole component is a non-empty list of distinct pixels of the box, each a hole cell of the reverse fill. */
  lemma ComponentCells(rs: seq<seq<Coord>>, box: Box, k: nat)
    requires InnerFits(rs, box) && k < |InnerComponents(rs, box)|
    ensures var comp := InnerComponents(rs, box)[k]; var b := Bounds(rs, box); var g := FilledGrid(rs, box, true);
      && comp != [] && Distinct(comp) && OnGrid(comp)
      && forall p :: p in comp ==> Fg(g, Coord(p.x - b.minX, p.y - b.minY))
  {
    hide FilledGrid, Bounds, TightBox, Group, Ones, InnerComponents, SplitByConnectivity, Ordered, FillCell, Fg;
    var g := FilledGrid(rs, box, true);
    var b := Bounds(rs, box);
    var gs := Group(g, Ones(g, |g|));
    InnerIs(rs, box);
    ComponentsSpec(g);
    ShiftedCells(g, gs, Ones(g, |g|), k, b.minX, b.minY);
  }

  /** A list of the grouping, moved by (dx, dy): non-empty, without repeats, and made of moved 1-cells. */
  lemma ShiftedCells(g: seq<seq<int>>, gs: seq<seq<Coord>>, cells: seq<Coord>, k: nat, dx: int, dy: int)
    requires k < |gs| && Ordered(gs) && multiset(Concat(gs)) == multiset(cells)
    requires forall c :: c in cells <==> Fg(g, c)
    requires dy >= 0
    ensures var comp := Shift(gs, dx, dy)[k];
      && comp != [] && Distinct(comp) && OnGrid(comp)
      && forall p :: p in comp ==> Fg(g, Coord(p.x - dx, p.y - dy))
  {
    hide Ordered, Concat, Shift;
    var comp := Shift(gs, dx, dy)[k];
    OrderedList(gs, k);
    forall p | p in comp
      ensures Fg(g, Coord(p.x - dx, p.y - dy)) && p.y >= 0
    {
      var t :| 0 <= t < |comp| && comp[t] == p;
      ParticleProps.ConcatHas(gs, k, t);
      assert gs[k][t] in multiset(cells);
      assert gs[k][t] == Coord(p.x - dx, p.y - dy);
    }
    forall t | 0 <= t < |comp|
      ensures comp[t].y >= 0
    {
      assert comp[t] in comp;
    }
    forall a, c | 0 <= a < c < |comp|
      ensures comp[a] != comp[c]
    {
      assert RasterBefore(gs[k][a], gs[k][c]);
    }
  }

  /** A list of an ordered grouping is non-empty and raster-increasing. */
  lemma OrderedList(gs: seq<seq<Coord>>, k: nat)
    requires Ordered(gs) && k < |gs|
    ensures |gs[k]| > 0 && RasterIncreasing(gs[k])
  {
  }

  /** Each hole component, grouped by row, can be handed to extractOuterBoundary with the same box. */
  lemma ComponentFits(rs: seq<seq<Coord>>, box: Box, k: nat)
    requires InnerFits(rs, box) && k < |InnerComponents(rs, box)|
    ensures var comp := InnerComponents(rs, box)[k];
      && OnGrid(comp) && Fits(GroupRows(comp), box)
      && WellGrouped(GroupRows(comp))
      && forall p :: InGroups(GroupRows(comp), p) <==> p in comp
  {
    var comp := InnerComponents(rs, box)[k];
    ComponentCells(rs, box, k);
    GroupRowsWellGrouped(comp);
    var rows := GroupRows(comp);
    assert InGroups(rows, comp[0]);
    if box == NO_BOX {
      TightFill(rows);
    }
  }

  /**
   * Every point of an inner boundary is a hole pixel: not an input pixel,
   * yet strictly between the two ends of the input row at its height. Each
   * inner boundary lists distinct points of its component, and with the
   * tight box it opens with the component's first pixel in raster order.
   */
  lemma InnerBoundarySpec(rs: seq<seq<Coord>>, box: Box, k: nat)
    requires InnerFits(rs, box) && WellGrouped(rs) && NotBefore(rs, Bounds(rs, box).minX, Bounds(rs, box).minY)
    requires k < |InnerBoundaries(rs, box)|
    ensures var o := InnerBoundaries(rs, box)[k]; var comp := InnerComponents(rs, box)[k];
      && Distinct(o)
      && (forall p :: p in o ==> p in comp)
      && (forall p :: p in o ==>
            !InGroups(rs, p) && exists l :: 0 <= l < |rs| && rs[l][0].y == p.y && rs[l][0].x < p.x < Last(rs[l]).x)
      && (box == NO_BOX ==> o != [] && comp != [] && o[0] == comp[0])
  {
    hide InnerBoundaries, InnerComponents, OuterBoundary, FilledGrid, Bounds, TightBox, Group, Ones, GroupRows,
      FillCell, SplitByConnectivity, Ordered, Traced, InGroups, Fg, WellGrouped, NotBefore;
    InnerBoundariesAt(rs, box);
    var comps := InnerComponents(rs, box);
    var comp := comps[k];
    var b := Bounds(rs, box);
    var g := FilledGrid(rs, box, true);
    ComponentFits(rs, box, k);
    ComponentCells(rs, box, k);
    var rows := GroupRows(comp);
    var o := InnerBoundaries(rs, box)[k];
    ComponentNotBefore(rs, box, k);
    OuterBoundarySpec(rows, box);
    forall p | p in o
      ensures !InGroups(rs, p) && exists l :: 0 <= l < |rs| && rs[l][0].y == p.y && rs[l][0].x < p.x < Last(rs[l]).x
    {
      HoleCell(rs, box, p);
    }
    if box == NO_BOX {
      TightOuterBoundary(rows);
      ComponentOrder(rs, box, k);
      TightComponentFirst(comp, rows);
    }
  }

  /** The first pixel of the first row of a component's grouping is the component's first cell. */
  lemma TightComponentFirst(comp: seq<Coord>, rows: seq<seq<Coord>>)
    requires rows != [] && WellGrouped(rows) && comp != []
    requires forall p :: InGroups(rows, p) <==> p in comp
    requires forall t :: 0 < t < |comp| ==> RasterBefore(comp[0], comp[t])
    ensures rows[0][0] == comp[0]
  {
    assert comp[0] in comp;
    var l, u :| 0 <= l < |rows| && 0 <= u < |rows[l]| && rows[l][u] == comp[0];
    RasterFirst(rows, l, u);
    InGroupsAt(rows, 0, 0);
    var t :| 0 <= t < |comp| && comp[t] == rows[0][0];
  }

  /** A 1-cell of the reverse fill, in image coordinates, is a hole pixel of its row. */
  lemma HoleCell(rs: seq<seq<Coord>>, box: Box, p: Coord)
    requires InnerFits(rs, box) && WellGrouped(rs) && NotBefore(rs, Bounds(rs, box).minX, Bounds(rs, box).minY)
    requires Fg(FilledGrid(rs, box, true), Coord(p.x - Bounds(rs, box).minX, p.y - Bounds(rs, box).minY))
    ensures !InGroups(rs, p) && exists l :: 0 <= l < |rs| && rs[l][0].y == p.y && rs[l][0].x < p.x < Last(rs[l]).x
  {
    hide TightBox, InGroups, WellGrouped, NotBefore;
    var b := Bounds(rs, box);
    var c := Coord(p.x - b.minX, p.y - b.minY);
    FillCellMeaning(rs, b, true, c.y, c.x);
    assert c.x + b.minX == p.x && c.y + b.minY == p.y;
  }

  /** No pixel of a hole component lies left of or above the box its rows are filled in. */
  lemma ComponentNotBefore(rs: seq<seq<Coord>>, box: Box, k: nat)
    requires InnerFits(rs, box) && k < |InnerComponents(rs, box)|
    ensures var rows := GroupRows(InnerComponents(rs, box)[k]);
      Fits(rows, box) && NotBefore(rows, Bounds(rows, box).minX, Bounds(rows, box).minY)
  {
    hide InnerComponents, FilledGrid, TightBox, GroupRows, FillCell, Fg, InGroups;
    var comp := InnerComponents(rs, box)[k];
    var rows := GroupRows(comp);
    var b := Bounds(rs, box);
    ComponentFits(rs, box, k);
    ComponentCells(rs, box, k);
    if box == NO_BOX {
      TightBoxSpec(rows);
    } else {
      forall l, t | 0 <= l < |rows| && 0 <= t < |rows[l]|
        ensures box.minX <= rows[l][t].x && box.minY <= rows[l][t].y
      {
        InGroupsAt(rows, l, t);
        FgInside(FilledGrid(rs, box, true), Coord(rows[l][t].x - b.minX, rows[l][t].y - b.minY));
      }
    }
  }

  lemma InGroupsAt(rs: seq<seq<Coord>>, l: nat, t: nat)
    requires l < |rs| && t < |rs[l]|
    ensures InGroups(rs, rs[l][t])
  {
  }

  lemma FgInside(g: seq<seq<int>>, c: Coord)
    requires Fg(g, c)
    ensures c.x >= 0 && c.y >= 0
  {
  }

  /** A component lists its cells in raster order. */
  lemma ComponentOrder(rs: seq<seq<Coord>>, box: Box, k: nat)
    requires InnerFits(rs, box) && k < |InnerComponents(rs, box)|
    ensures forall t :: 0 < t < |InnerComponents(rs, box)[k]| ==>
      RasterBefore(InnerComponents(rs, box)[k][0], InnerComponents(rs, box)[k][t])
  {
    hide FilledGrid, Bounds, TightBox, Group, Ones, InnerComponents, SplitByConnectivity, FillCell, Fg;
    var g := FilledGrid(rs, box, true);
    InnerIs(rs, box);
    ComponentsSpec(g);
    var gs := Group(g, Ones(g, |g|));
    assert RasterIncreasing(gs[k]);
  }
}
