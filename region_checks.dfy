/**
 * Two checks of regionLabeling.js: validInnerBoundary (src/regionLabeling.js:435-482)
 * keeps the hole boundaries whose every point touches a 1 of the binary
 * image, and isInsidePolygon (src/regionLabeling.js:603-624) asks whether a
 * point, rounded, is one of a region's grouped pixels.
 */
module RegionChecks {
  import opened Helper
  import opened PixelRows
  import opened RegionFill
  import opened BoundaryTrace

  // ---------------------------------------------------------------------------
  // validInnerBoundary
  // ---------------------------------------------------------------------------

  /** countColorNeighbors over the first n directions: the 1-cells of the image among p's neighbours. */
  function ColourNeighbours(binary: seq<seq<int>>, p: Coord, n: nat): nat
    requires n <= 8
  {
    if n == 0 then 0
    else ColourNeighbours(binary, p, n - 1) + if IsBlack(binary, Move(p, DIRECTIONS[n - 1])) then 1 else 0
  }

  /** Every point of the boundary has a 1-cell among its eight neighbours. */
  predicate ValidBoundary(binary: seq<seq<int>>, boundary: seq<Coord>)
  {
    forall t :: 0 <= t < |boundary| ==> !Isolated(binary, boundary[t])
  }

  /** The valid boundaries, in their order. */
  function KeepValid(bs: seq<seq<Coord>>, binary: seq<seq<int>>): seq<seq<Coord>>
  {
    if bs == [] then []
    else
      var rest := KeepValid(bs[..|bs| - 1], binary);
      if ValidBoundary(binary, Last(bs)) then rest + [Last(bs)] else rest
  }

  /** The positions among the first n boundaries of bs that are valid, in increasing order. */
  function ValidIndices(bs: seq<seq<Coord>>, binary: seq<seq<int>>, n: nat): (r: seq<nat>)
    requires n <= |bs|
  {
    if n == 0 then []
    else ValidIndices(bs, binary, n - 1) + (if ValidBoundary(binary, bs[n - 1]) then [n - 1] else [])
  }

  /** The loop over the eight directions round p. */
  method CountColourNeighbours(binary: seq<seq<int>>, p: Coord) returns (count: nat)
    ensures count == 0 <==> Isolated(binary, p)
    ensures count <= 8
  {
    count := 0;
    for k := 0 to 8
      invariant count == ColourNeighbours(binary, p, k)
    {
      var n := Move(p, DIRECTIONS[k]);
      if IsBlack(binary, n) {
        count := count + 1;
      }
    }
    ColourNeighboursSpec(binary, p, 8);
  }

  method ValidInnerBoundary(innerBoundary: seq<seq<Coord>>, binaryDimensionalArr: seq<seq<int>>)
    returns (boundaries: seq<seq<Coord>>)
    ensures boundaries == KeepValid(innerBoundary, binaryDimensionalArr)
  {
    boundaries := [];
    for b := 0 to |innerBoundary|
      invariant boundaries == KeepValid(innerBoundary[..b], binaryDimensionalArr)
    {
      var boundary := innerBoundary[b];
      var valid := true;
      for t := 0 to |boundary|
        invariant valid && forall u :: 0 <= u < t ==> !Isolated(binaryDimensionalArr, boundary[u])
      {
        var countColorNeighbors := CountColourNeighbours(binaryDimensionalArr, boundary[t]);
        if countColorNeighbors == 0 {
          valid := false;
          break;
        }
      }
      assert innerBoundary[..b + 1][..b] == innerBoundary[..b];
      if valid {
        boundaries := boundaries + [boundary];
      }
    }
    assert innerBoundary[..|innerBoundary|] == innerBoundary;
  }

  lemma {:induction false} ColourNeighboursSpec(binary: seq<seq<int>>, p: Coord, n: nat)
    requires n <= 8
    ensures ColourNeighbours(binary, p, n) <= n
    ensures ColourNeighbours(binary, p, n) == 0 <==> forall k :: 0 <= k < n ==> !IsBlack(binary, Move(p, DIRECTIONS[k]))
  {
    if n > 0 {
      ColourNeighboursSpec(binary, p, n - 1);
    }
  }

  /**
   * validInnerBoundary keeps exactly the boundaries whose every point has a
   * 1 among its eight neighbours, in their order: it drops nothing valid,
   * keeps nothing invalid, and returns the input when all are valid.
   */
  lemma {:induction false} KeepValidSpec(bs: seq<seq<Coord>>, binary: seq<seq<int>>)
    ensures forall b :: b in KeepValid(bs, binary) <==> b in bs && ValidBoundary(binary, b)
    ensures |KeepValid(bs, binary)| <= |bs|
    ensures (forall k :: 0 <= k < |bs| ==> ValidBoundary(binary, bs[k])) ==> KeepValid(bs, binary) == bs
    ensures var kept, idx := KeepValid(bs, binary), ValidIndices(bs, binary, |bs|);
      && |kept| == |idx|
      && (forall k :: 0 <= k < |idx| ==> idx[k] < |bs| && kept[k] == bs[idx[k]] && ValidBoundary(binary, bs[idx[k]]))
      && (forall k, l :: 0 <= k < l < |idx| ==> idx[k] < idx[l])
      && (forall i :: 0 <= i < |bs| && ValidBoundary(binary, bs[i]) ==> i in idx)
  {
    hide KeepValid, ValidIndices, ValidBoundary;
    KeepValidMembers(bs, binary);
    KeptInOrder(bs, binary, |bs|);
    assert bs[..|bs|] == bs;
  }

  /** Membership, length and the all-valid case of KeepValidSpec. */
  lemma {:induction false} KeepValidMembers(bs: seq<seq<Coord>>, binary: seq<seq<int>>)
    ensures forall b :: b in KeepValid(bs, binary) <==> b in bs && ValidBoundary(binary, b)
    ensures |KeepValid(bs, binary)| <= |bs|
    ensures (forall k :: 0 <= k < |bs| ==> ValidBoundary(binary, bs[k])) ==> KeepValid(bs, binary) == bs
  {
    if bs != [] {
      var init := bs[..|bs| - 1];
      KeepValidMembers(init, binary);
      assert bs == init + [Last(bs)];
      if forall k :: 0 <= k < |bs| ==> ValidBoundary(binary, bs[k]) {
        assert forall k :: 0 <= k < |init| ==> ValidBoundary(binary, init[k]) by {
          forall k | 0 <= k < |init|
            ensures ValidBoundary(binary, init[k])
          {
            assert init[k] == bs[k];
          }
        }
      }
    }
  }

  /** The kept boundaries among the first n are those at ValidIndices, in the same order. */
  lemma {:induction false} KeptInOrder(bs: seq<seq<Coord>>, binary: seq<seq<int>>, n: nat)
    requires n <= |bs|
    ensures var kept, idx := KeepValid(bs[..n], binary), ValidIndices(bs, binary, n);
      && |kept| == |idx|
      && (forall k :: 0 <= k < |idx| ==> idx[k] < n && kept[k] == bs[idx[k]] && ValidBoundary(binary, bs[idx[k]]))
      && (forall k, l :: 0 <= k < l < |idx| ==> idx[k] < idx[l])
      && (forall i :: 0 <= i < n && ValidBoundary(binary, bs[i]) ==> i in idx)
  {
    hide ValidBoundary, Isolated;
    if n > 0 {
      KeptInOrder(bs, binary, n - 1);
      assert bs[..n][..n - 1] == bs[..n - 1];
      assert Last(bs[..n]) == bs[n - 1];
    }
  }

  // ---------------------------------------------------------------------------
  // isInsidePolygon
  // ---------------------------------------------------------------------------

  /** Every grouped pixel lies between the rows of the first and the last group. */
  lemma RowsSpan(rs: seq<seq<Coord>>, c: Coord)
    requires RowsIncreasing(rs) && rs != [] && InGroups(rs, c)
    ensures rs[0][0].y <= c.y <= Last(rs)[0].y
  {
    var k, t :| 0 <= k < |rs| && 0 <= t < |rs[k]| && rs[k][t] == c;
    assert c.y == rs[k][0].y;
    if 0 < k {
      assert rs[0][0].y < rs[k][0].y;
    }
    if k < |rs| - 1 {
      assert rs[k][0].y < rs[|rs| - 1][0].y;
    }
  }

  /**
   * isInsidePolygon: the rounded point is one of the grouped pixels, within
   * the rows of the first and last group; for rows grouped by increasing y,
   * exactly when it is one of the pixels.
   */
  method IsInsidePolygon(px: real, py: real, groupedPixelsByRow: seq<seq<Coord>>) returns (inside: bool)
    requires groupedPixelsByRow != [] && |groupedPixelsByRow[0]| > 0 && |Last(groupedPixelsByRow)| > 0
    ensures inside <==>
      groupedPixelsByRow[0][0].y <= Round(py) <= Last(groupedPixelsByRow)[0].y &&
      InGroups(groupedPixelsByRow, Coord(Round(px), Round(py)))
    ensures RowsIncreasing(groupedPixelsByRow) ==>
      (inside <==> InGroups(groupedPixelsByRow, Coord(Round(px), Round(py))))
  {
    var x, y := Round(px), Round(py);
    if RowsIncreasing(groupedPixelsByRow) && InGroups(groupedPixelsByRow, Coord(x, y)) {
      RowsSpan(groupedPixelsByRow, Coord(x, y));
    }
    if y < groupedPixelsByRow[0][0].y || y > groupedPixelsByRow[|groupedPixelsByRow| - 1][0].y {
      return false;
    }
    for k := 0 to |groupedPixelsByRow|
      invariant forall l, t :: 0 <= l < k && 0 <= t < |groupedPixelsByRow[l]| ==> groupedPixelsByRow[l][t] != Coord(x, y)
    {
      var group := groupedPixelsByRow[k];
      for t := 0 to |group|
        invariant forall u :: 0 <= u < t ==> group[u] != Coord(x, y)
      {
        var pixel := group[t];
        if pixel.x == x && pixel.y == y {
          return true;
        }
      }
    }
    return false;
  }
}
