/**
 * fillBinaryEmptyPixels (src/regionLabeling.js:43-113): rows of pixels,
 * grouped by groupPixelsByRow, become a binary image over a bounding box.
 * A box of four -1 asks for the tight box of the pixels. With reverse unset
 * the input pixels are the 1-cells; with reverse set the input pixels are 0
 * and the gaps strictly between a row's two ends are 1.
 */
module RegionFill {
  import opened Helper
  import opened Constants
  import opened PixelRows
  import opened Neighbourhood
  import ParticleProps

  /** [minX, maxX, minY, maxY]. */
  datatype Box = Box(minX: int, maxX: int, minY: int, maxY: int)

  /** The box [-1, -1, -1, -1] that asks for the tight bounding box. */
  const NO_BOX: Box := Box(-1, -1, -1, -1)

  function Height(b: Box): int { b.maxY - b.minY + 1 }
  function Width(b: Box): int { b.maxX - b.minX + 1 }

  predicate NonEmptyRows(rs: seq<seq<Coord>>)
  {
    forall k :: 0 <= k < |rs| ==> |rs[k]| > 0
  }

  /** The grouping groupPixelsByRow makes of distinct pixels: rows by increasing y, x increasing in a row. */
  predicate WellGrouped(rs: seq<seq<Coord>>)
  {
    && RowsIncreasing(rs)
    && (forall k, a, b :: 0 <= k < |rs| && 0 <= a < b < |rs[k]| ==> rs[k][a].x < rs[k][b].x)
  }

  /** c is one of the grouped pixels. */
  predicate InGroups(rs: seq<seq<Coord>>, c: Coord)
  {
    exists k, t :: 0 <= k < |rs| && 0 <= t < |rs[k]| && rs[k][t] == c
  }

  /** No pixel lies left of minX or above minY. */
  predicate NotBefore(rs: seq<seq<Coord>>, minX: int, minY: int)
  {
    forall k, t :: 0 <= k < |rs| && 0 <= t < |rs[k]| ==> minX <= rs[k][t].x && minY <= rs[k][t].y
  }

  // ---------------------------------------------------------------------------
  // The tight box (src/regionLabeling.js:51-64)
  // ---------------------------------------------------------------------------

  /** The smallest left end among the first n rows, starting from the first pixel's x. */
  function LeftMost(rs: seq<seq<Coord>>, n: nat): int
    requires rs != [] && NonEmptyRows(rs) && n <= |rs|
  {
    if n == 0 then rs[0][0].x
    else var m := LeftMost(rs, n - 1); if rs[n - 1][0].x < m then rs[n - 1][0].x else m
  }

  /** The largest right end among the first n rows, starting from the first pixel's x. */
  function RightMost(rs: seq<seq<Coord>>, n: nat): int
    requires rs != [] && NonEmptyRows(rs) && n <= |rs|
  {
    if n == 0 then rs[0][0].x
    else var m := RightMost(rs, n - 1); if Last(rs[n - 1]).x > m then Last(rs[n - 1]).x else m
  }

  function TightBox(rs: seq<seq<Coord>>): Box
    requires rs != [] && NonEmptyRows(rs)
  {
    Box(LeftMost(rs, |rs|), RightMost(rs, |rs|), rs[0][0].y, Last(rs)[0].y)
  }

  /** The box the fill works on. */
  function Bounds(rs: seq<seq<Coord>>, org: Box): Box
    requires NonEmptyRows(rs) && (org == NO_BOX ==> rs != [])
  {
    if org == NO_BOX then TightBox(rs) else org
  }

  // ---------------------------------------------------------------------------
  // The fill, cell by cell (src/regionLabeling.js:72-109)
  // ---------------------------------------------------------------------------

  /** idxX when the scan of a row reaches column j: the pixels matched so far. */
  function Matches(group: seq<Coord>, minX: int, j: nat): (m: nat)
    ensures m <= |group| && m <= j
  {
    if j == 0 then 0
    else
      var m := Matches(group, minX, j - 1);
      if m < |group| && j - 1 + minX == group[m].x then m + 1 else m
  }

  /** The value written at column j of a row that has pixels. */
  function RowCell(group: seq<Coord>, minX: int, reverse: bool, j: nat): int
    requires |group| > 0
  {
    var m := Matches(group, minX, j);
    if m < |group| && j + minX == group[m].x then (if reverse then ZERO else ONE)
    else if reverse && j + minX > group[0].x && j + minX < Last(group).x then ONE
    else ZERO
  }

  /** idxY when the scan reaches row i: the rows matched so far. */
  function RowsMatched(rs: seq<seq<Coord>>, minY: int, i: nat): (k: nat)
    requires NonEmptyRows(rs)
    ensures k <= |rs| && k <= i
  {
    if i == 0 then 0
    else
      var k := RowsMatched(rs, minY, i - 1);
      if k < |rs| && i - 1 + minY == rs[k][0].y then k + 1 else k
  }

  /** The value at row i, column j of the filled grid over box b. */
  function FillCell(rs: seq<seq<Coord>>, b: Box, reverse: bool, i: nat, j: nat): int
    requires NonEmptyRows(rs)
  {
    var k := RowsMatched(rs, b.minY, i);
    if k < |rs| && i + b.minY == rs[k][0].y then RowCell(rs[k], b.minX, reverse, j) else ZERO
  }

  /** fillBinaryEmptyPixels: the box offsets and a fresh height × width grid of 0s and 1s. */
  method FillBinaryEmptyPixels(groupedPixels: seq<seq<Coord>>, org: Box, reverse: bool)
    returns (minX: int, minY: int, filled: array2<int>)
    requires NonEmptyRows(groupedPixels) && (org == NO_BOX ==> groupedPixels != [])
    requires Height(Bounds(groupedPixels, org)) >= 0 && Width(Bounds(groupedPixels, org)) >= 0
    ensures fresh(filled)
    ensures minX == Bounds(groupedPixels, org).minX && minY == Bounds(groupedPixels, org).minY
    ensures filled.Length0 == Height(Bounds(groupedPixels, org))
    ensures filled.Length1 == Width(Bounds(groupedPixels, org))
    ensures forall i, j :: 0 <= i < filled.Length0 && 0 <= j < filled.Length1 ==>
      filled[i, j] == FillCell(groupedPixels, Bounds(groupedPixels, org), reverse, i, j)
  {
    hide RowCell, Matches;
    var maxX, maxY;
    minX, maxX, minY, maxY := org.minX, org.maxX, org.minY, org.maxY;
    if minX == -1 && maxX == -1 && minY == -1 && maxY == -1 {
      minY := groupedPixels[0][0].y;
      maxY := groupedPixels[|groupedPixels| - 1][0].y;
      minX, maxX := ScanBounds(groupedPixels);
    }
    ghost var b := Bounds(groupedPixels, org);
    assert b == Box(minX, maxX, minY, maxY);
    filled := new int[maxY - minY + 1, maxX - minX + 1]((i, j) => ZERO);
    var idxY := 0;
    for i := 0 to maxY - minY + 1
      invariant idxY == RowsMatched(groupedPixels, minY, i)
      invariant forall i', j :: 0 <= i' < i && 0 <= j < filled.Length1 ==>
        filled[i', j] == FillCell(groupedPixels, b, reverse, i', j)
      invariant forall i', j :: i <= i' < filled.Length0 && 0 <= j < filled.Length1 ==> filled[i', j] == ZERO
    {
      if idxY < |groupedPixels| && i + minY == groupedPixels[idxY][0].y {
        FillRow(filled, i, groupedPixels[idxY], minX, reverse);
        idxY := idxY + 1;
      }
    }
  }

  /** The left and right ends of the tight box: a scan over the rows' first and last pixels. */
  method ScanBounds(groupedPixels: seq<seq<Coord>>) returns (minX: int, maxX: int)
    requires NonEmptyRows(groupedPixels) && groupedPixels != []
    ensures minX == TightBox(groupedPixels).minX && maxX == TightBox(groupedPixels).maxX
  {
    minX := groupedPixels[0][0].x;
    maxX := groupedPixels[0][0].x;
    for k := 0 to |groupedPixels|
      invariant minX == LeftMost(groupedPixels, k) && maxX == RightMost(groupedPixels, k)
    {
      var group := groupedPixels[k];
      var left, right := group[0].x, group[|group| - 1].x;
      if left < minX { minX := left; }
      if right > maxX { maxX := right; }
    }
  }

  /** The scan of one row that has pixels: column j gets RowCell, other rows stay. */
  method FillRow(filled: array2<int>, i: nat, group: seq<Coord>, minX: int, reverse: bool)
    requires i < filled.Length0 && |group| > 0
    modifies filled
    ensures forall j :: 0 <= j < filled.Length1 ==> filled[i, j] == RowCell(group, minX, reverse, j)
    ensures forall i', j :: 0 <= i' < filled.Length0 && i' != i && 0 <= j < filled.Length1 ==>
      filled[i', j] == old(filled[i', j])
  {
    var idxX := 0;
    for j := 0 to filled.Length1
      invariant idxX == Matches(group, minX, j)
      invariant forall j' :: 0 <= j' < j ==> filled[i, j'] == RowCell(group, minX, reverse, j')
      invariant forall i', j' :: 0 <= i' < filled.Length0 && i' != i && 0 <= j' < filled.Length1 ==>
        filled[i', j'] == old(filled[i', j'])
    {
      if idxX < |group| && j + minX == group[idxX].x {
        if reverse {
          filled[i, j] := ZERO;
        } else {
          filled[i, j] := ONE;
        }
        idxX := idxX + 1;
      } else {
        if reverse && j + minX > group[0].x && j + minX < group[|group| - 1].x {
          filled[i, j] := ONE;
        } else {
          filled[i, j] := ZERO;
        }
      }
    }
  }

  // ---------------------------------------------------------------------------
  // What the cells mean
  // ---------------------------------------------------------------------------

  /** On a row with strictly increasing x and nothing left of minX, idxX splits the row at column j. */
  lemma {:induction false} MatchesSplit(group: seq<Coord>, minX: int, j: nat)
    requires forall a, b :: 0 <= a < b < |group| ==> group[a].x < group[b].x
    requires forall t :: 0 <= t < |group| ==> minX <= group[t].x
    ensures forall t :: 0 <= t < Matches(group, minX, j) ==> group[t].x < j + minX
    ensures forall t :: Matches(group, minX, j) <= t < |group| ==> j + minX <= group[t].x
  {
    if j > 0 {
      MatchesSplit(group, minX, j - 1);
    }
  }

  /** Column j of a row: a pixel at x = j + minX, a gap between the row's ends, or neither. */
  lemma RowCellMeaning(group: seq<Coord>, minX: int, reverse: bool, j: nat)
    requires |group| > 0
    requires forall a, b :: 0 <= a < b < |group| ==> group[a].x < group[b].x
    requires forall t :: 0 <= t < |group| ==> minX <= group[t].x
    ensures RowCell(group, minX, reverse, j) == ONE <==>
      if reverse then group[0].x < j + minX < Last(group).x && !(exists t :: 0 <= t < |group| && group[t].x == j + minX)
      else exists t :: 0 <= t < |group| && group[t].x == j + minX
    ensures RowCell(group, minX, reverse, j) == ZERO || RowCell(group, minX, reverse, j) == ONE
  {
    var m := Matches(group, minX, j);
    MatchesSplit(group, minX, j);
    if exists t :: 0 <= t < |group| && group[t].x == j + minX {
      var t :| 0 <= t < |group| && group[t].x == j + minX;
      assert m <= t;
      assert m < |group| && j + minX <= group[m].x <= group[t].x;
    }
  }

  /** With strictly increasing rows at or below minY, idxY splits the rows at row i. */
  lemma {:induction false} RowsMatchedSplit(rs: seq<seq<Coord>>, minY: int, i: nat)
    requires RowsIncreasing(rs)
    requires forall k :: 0 <= k < |rs| ==> minY <= rs[k][0].y
    ensures forall k :: 0 <= k < RowsMatched(rs, minY, i) ==> rs[k][0].y < i + minY
    ensures forall k :: RowsMatched(rs, minY, i) <= k < |rs| ==> i + minY <= rs[k][0].y
  {
    if i > 0 {
      RowsMatchedSplit(rs, minY, i - 1);
    }
  }

  /**
   * The filled grid, cell by cell: with reverse unset a cell is 1 exactly at
   * an input pixel; with reverse set exactly at a non-pixel strictly between
   * its row's two ends. Every cell is 0 or 1.
   */
  lemma FillCellMeaning(rs: seq<seq<Coord>>, b: Box, reverse: bool, i: nat, j: nat)
    requires WellGrouped(rs) && NotBefore(rs, b.minX, b.minY)
    ensures FillCell(rs, b, reverse, i, j) == ZERO || FillCell(rs, b, reverse, i, j) == ONE
    ensures !reverse ==> (FillCell(rs, b, reverse, i, j) == ONE <==> InGroups(rs, Coord(j + b.minX, i + b.minY)))
    ensures reverse ==> (FillCell(rs, b, reverse, i, j) == ONE <==>
      exists k :: 0 <= k < |rs| && rs[k][0].y == i + b.minY && rs[k][0].x < j + b.minX < Last(rs[k]).x &&
        !InGroups(rs, Coord(j + b.minX, i + b.minY)))
  {
    var k := RowsMatched(rs, b.minY, i);
    assert RowsIncreasing(rs) && forall k :: 0 <= k < |rs| ==> b.minY <= rs[k][0].y;
    RowsMatchedSplit(rs, b.minY, i);
    hide RowsMatched, Matches, InGroups, RowsIncreasing;
    if k < |rs| && i + b.minY == rs[k][0].y {
      RowCellMeaning(rs[k], b.minX, reverse, j);
      OnlyRow(rs, k, j + b.minX);
    } else {
      NoRow(rs, k, i + b.minY, j + b.minX);
    }
  }

  /** Row k is the only group at its y, and the pixels at that y are exactly its members. */
  lemma OnlyRow(rs: seq<seq<Coord>>, k: nat, x: int)
    requires RowsIncreasing(rs) && k < |rs|
    ensures forall k' :: 0 <= k' < |rs| && rs[k'][0].y == rs[k][0].y ==> k' == k
    ensures InGroups(rs, Coord(x, rs[k][0].y)) <==> exists t :: 0 <= t < |rs[k]| && rs[k][t].x == x
  {
    var c := Coord(x, rs[k][0].y);
    if InGroups(rs, c) {
      var k', t :| 0 <= k' < |rs| && 0 <= t < |rs[k']| && rs[k'][t] == c;
      assert rs[k'][0].y == rs[k][0].y;
      assert rs[k][t].x == x;
    }
    if exists t :: 0 <= t < |rs[k]| && rs[k][t].x == x {
      var t :| 0 <= t < |rs[k]| && rs[k][t].x == x;
      assert rs[k][t] == c;
    }
  }

  /** When the first k groups lie above y and the rest at or below it, none at y: nothing lies on row y. */
  lemma NoRow(rs: seq<seq<Coord>>, k: nat, y: int, x: int)
    requires RowsIncreasing(rs) && k <= |rs|
    requires forall l :: 0 <= l < k ==> rs[l][0].y < y
    requires forall l :: k <= l < |rs| ==> y <= rs[l][0].y
    requires k < |rs| ==> rs[k][0].y != y
    ensures forall l :: 0 <= l < |rs| ==> rs[l][0].y != y
    ensures !InGroups(rs, Coord(x, y))
  {
    forall l | 0 <= l < |rs|
      ensures rs[l][0].y != y
    {
      assert k < l ==> rs[k][0].y < rs[l][0].y;
    }
    forall l, t | 0 <= l < |rs| && 0 <= t < |rs[l]|
      ensures rs[l][t] != Coord(x, y)
    {
      assert rs[l][t].y == rs[l][0].y;
    }
  }

  /** The tight box holds every pixel, and each of its four sides touches one. */
  lemma TightBoxSpec(rs: seq<seq<Coord>>)
    requires rs != [] && WellGrouped(rs)
    ensures var b := TightBox(rs);
      && (forall k, t :: 0 <= k < |rs| && 0 <= t < |rs[k]| ==>
            b.minX <= rs[k][t].x <= b.maxX && b.minY <= rs[k][t].y <= b.maxY)
      && (exists y :: InGroups(rs, Coord(b.minX, y)))
      && (exists y :: InGroups(rs, Coord(b.maxX, y)))
      && (exists x :: InGroups(rs, Coord(x, b.minY)))
      && (exists x :: InGroups(rs, Coord(x, b.maxY)))
  {
    var b := TightBox(rs);
    forall k, t | 0 <= k < |rs| && 0 <= t < |rs[k]|
      ensures b.minX <= rs[k][t].x <= b.maxX && b.minY <= rs[k][t].y <= b.maxY
    {
      LeftMostBelow(rs, |rs|, k);
      RightMostAbove(rs, |rs|, k);
      if t > 0 {
        assert rs[k][0].x < rs[k][t].x;
      }
      if t < |rs[k]| - 1 {
        assert rs[k][t].x < Last(rs[k]).x;
      }
      assert rs[k][t].y == rs[k][0].y;
      if k > 0 {
        assert rs[0][0].y < rs[k][0].y;
      }
      if k < |rs| - 1 {
        assert rs[k][0].y < Last(rs)[0].y;
      }
    }
    LeftmostAttains(rs, |rs|);
    assert rs[0][0].x <= Last(rs[0]).x by {
      if |rs[0]| > 1 {
        assert rs[0][0].x < rs[0][|rs[0]| - 1].x;
      }
    }
    RightmostAttains(rs, |rs|);
    var l := Leftmost(rs, |rs|);
    var r := Rightmost(rs, |rs|);
    assert rs[l][0] == Coord(b.minX, rs[l][0].y);
    assert Last(rs[r]) == rs[r][|rs[r]| - 1];
    assert rs[0][0] == Coord(rs[0][0].x, b.minY);
    assert Last(rs)[0] == Coord(Last(rs)[0].x, b.maxY);
  }

  /** Which row gives LeftMost among the first n rows. */
  function Leftmost(rs: seq<seq<Coord>>, n: nat): (k: nat)
    requires rs != [] && NonEmptyRows(rs) && n <= |rs|
    ensures k < |rs|
  {
    if n == 0 then 0
    else var l := Leftmost(rs, n - 1); if rs[n - 1][0].x < LeftMost(rs, n - 1) then n - 1 else l
  }

  /** Which row gives RightMost among the first n rows. */
  function Rightmost(rs: seq<seq<Coord>>, n: nat): (k: nat)
    requires rs != [] && NonEmptyRows(rs) && n <= |rs|
    ensures k < |rs|
  {
    if n == 0 then 0
    else var l := Rightmost(rs, n - 1); if Last(rs[n - 1]).x > RightMost(rs, n - 1) then n - 1 else l
  }

  lemma {:induction false} LeftmostAttains(rs: seq<seq<Coord>>, n: nat)
    requires rs != [] && NonEmptyRows(rs) && n <= |rs|
    ensures rs[Leftmost(rs, n)][0].x == LeftMost(rs, n)
  {
    if n > 0 {
      LeftmostAttains(rs, n - 1);
    }
  }

  lemma {:induction false} RightmostAttains(rs: seq<seq<Coord>>, n: nat)
    requires rs != [] && NonEmptyRows(rs) && 0 < n <= |rs| && rs[0][0].x <= Last(rs[0]).x
    ensures Last(rs[Rightmost(rs, n)]).x == RightMost(rs, n)
  {
    if n > 1 {
      RightmostAttains(rs, n - 1);
    }
  }

  lemma {:induction false} LeftMostBelow(rs: seq<seq<Coord>>, n: nat, k: nat)
    requires rs != [] && NonEmptyRows(rs) && k < n <= |rs|
    ensures LeftMost(rs, n) <= rs[k][0].x
  {
    if k < n - 1 {
      LeftMostBelow(rs, n - 1, k);
    }
  }

  lemma {:induction false} RightMostAbove(rs: seq<seq<Coord>>, n: nat, k: nat)
    requires rs != [] && NonEmptyRows(rs) && k < n <= |rs|
    ensures Last(rs[k]).x <= RightMost(rs, n)
  {
    if k < n - 1 {
      RightMostAbove(rs, n - 1, k);
    }
  }

  /**
   * With the box [-1, -1, -1, -1] and reverse unset the grid is exactly the
   * pixel set: every pixel has a cell, and a cell is 1 iff it is a pixel.
   */
  lemma TightFill(rs: seq<seq<Coord>>)
    requires rs != [] && WellGrouped(rs)
    ensures var b := TightBox(rs);
      && Height(b) >= 1 && Width(b) >= 1
      && (forall k, t :: 0 <= k < |rs| && 0 <= t < |rs[k]| ==>
            0 <= rs[k][t].x - b.minX < Width(b) && 0 <= rs[k][t].y - b.minY < Height(b))
      && (forall i: nat, j: nat :: i < Height(b) && j < Width(b) ==>
            (FillCell(rs, b, false, i, j) == ONE <==> InGroups(rs, Coord(j + b.minX, i + b.minY))))
  {
    var b := TightBox(rs);
    TightBoxSpec(rs);
    assert b.minX <= rs[0][0].x <= b.maxX && b.minY <= rs[0][0].y <= b.maxY;
    forall i: nat, j: nat | i < Height(b) && j < Width(b)
      ensures FillCell(rs, b, false, i, j) == ONE <==> InGroups(rs, Coord(j + b.minX, i + b.minY))
    {
      FillCellMeaning(rs, b, false, i, j);
    }
  }

  // ---------------------------------------------------------------------------
  // groupPixelsByRow feeds the fill a proper grouping
  // ---------------------------------------------------------------------------

  /** A pixel of the concatenated rows sits in one of the rows. */
  lemma {:induction false} ConcatMember(rs: seq<seq<Coord>>, c: Coord)
    requires c in Concat(rs)
    ensures InGroups(rs, c)
  {
    var n := |rs| - 1;
    if c in Last(rs) {
      var t :| 0 <= t < |rs[n]| && rs[n][t] == c;
    } else {
      ConcatMember(rs[..n], c);
      var k, t :| 0 <= k < n && 0 <= t < |rs[..n][k]| && rs[..n][k][t] == c;
      assert rs[k][t] == c;
    }
  }

  /**
   * Grouping distinct pixels by row gives a proper grouping (rows by increasing
   * y, x strictly increasing in a row) holding exactly those pixels.
   */
  lemma GroupRowsWellGrouped(pixels: seq<Coord>)
    requires Distinct(pixels)
    ensures NonEmptyRows(GroupRows(pixels)) && WellGrouped(GroupRows(pixels))
    ensures forall c :: InGroups(GroupRows(pixels), c) <==> c in pixels
  {
    var rows := GroupRows(pixels);
    GroupRowsSpec(pixels);
    ParticleProps.PermutationDistinct(pixels, Concat(rows));
    forall k, a, b | 0 <= k < |rows| && 0 <= a < b < |rows[k]|
      ensures rows[k][a].x < rows[k][b].x
    {
      ParticleProps.ConcatDistinctParts(rows, k);
      assert X(rows[k][a]) <= X(rows[k][b]);
      assert rows[k][a] != rows[k][b];
    }
    forall c
      ensures InGroups(rows, c) <==> c in pixels
    {
      if InGroups(rows, c) {
        var k, t :| 0 <= k < |rows| && 0 <= t < |rows[k]| && rows[k][t] == c;
        ParticleProps.ConcatHas(rows, k, t);
        assert c in multiset(pixels);
      }
      if c in pixels {
        assert c in multiset(Concat(rows));
        ConcatMember(rows, c);
      }
    }
  }
}
