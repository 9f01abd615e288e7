/**
 * traceBoundary (src/regionLabeling.js:213-313): Moore-neighbourhood tracing
 * on a binary grid. The walk starts at the first 1-cell in raster order with
 * the pixel to its left as backtrack, and at every turn looks clockwise round
 * the current pixel, from the direction after the backtrack pixel, for the
 * first 1-cell. It stops on coming back to the start or on finding no 1-cell.
 *
 * The boundary is a JavaScript Set of the pixels met, which iterates in
 * insertion order: a sequence without repeats (Neighbourhood.Add).
 */
module BoundaryTrace {
  import opened Helper
  import opened Constants
  import opened ComponentSpec
  import opened Neighbourhood

  /** The Moore neighbourhood as (x, y) offsets, clockwise from the lower left. */
  const DIRECTIONS: seq<Coord> :=
    [Coord(-1, 1), Coord(-1, 0), Coord(-1, -1), Coord(0, -1), Coord(1, -1), Coord(1, 0), Coord(1, 1), Coord(0, 1)]

  function Move(c: Coord, d: Coord): Coord
  {
    Coord(c.x + d.x, c.y + d.y)
  }

  /** The neighbour of c in direction m % 8. */
  function Around(c: Coord, m: nat): Coord
  {
    Move(c, DIRECTIONS[m % 8])
  }

  /** a and b are distinct 8-neighbours. */
  predicate Adjacent8(a: Coord, b: Coord)
  {
    a != b && -1 <= a.x - b.x <= 1 && -1 <= a.y - b.y <= 1
  }

  /** isBlack: inside the first row's width and the grid's height, and a 1. */
  predicate IsBlack(image: seq<seq<int>>, c: Coord)
  {
    Fg(image, c) && c.x < |image[0]|
  }

  /** No 1-cell among the eight neighbours of c. */
  predicate Isolated(image: seq<seq<int>>, c: Coord)
  {
    forall k :: 0 <= k < 8 ==> !IsBlack(image, Move(c, DIRECTIONS[k]))
  }

  /** s is the first 1-cell in raster order. */
  ghost predicate FirstCell(image: seq<seq<int>>, s: Coord)
  {
    Fg(image, s) && forall c :: Fg(image, c) ==> !RasterBefore(c, s)
  }

  /** The first direction index, from i on, leading from cur to back; -1 when there is none. */
  function DirectionOf(cur: Coord, back: Coord, i: nat): (r: int)
    requires i <= 8
    ensures r == -1 || (i <= r < 8 && Move(cur, DIRECTIONS[r]) == back)
    decreases 8 - i
  {
    if i == 8 then -1
    else if Move(cur, DIRECTIONS[i]) == back then i
    else DirectionOf(cur, back, i + 1)
  }

  /** The first 1-cell going clockwise round cur from direction i up to sd + 8, the backtrack pixel itself. */
  function Scan(image: seq<seq<int>>, cur: Coord, sd: nat, i: nat): Option<Coord>
    requires sd < 8 && sd + 1 <= i <= sd + 9
    decreases sd + 9 - i
  {
    if i == sd + 9 then None
    else if IsBlack(image, Around(cur, i)) then Some(Around(cur, i))
    else Scan(image, cur, sd, i + 1)
  }

  /** One turn of the tracing loop from (cur, back): the next pixel, or None when the loop breaks. */
  function Step(image: seq<seq<int>>, cur: Coord, back: Coord): Option<Coord>
  {
    var sd := DirectionOf(cur, back, 0);
    if sd == -1 then None else Scan(image, cur, sd, sd + 1)
  }

  /** The pixels the loop adds from (cur, back) in at most fuel turns. */
  function Walk(image: seq<seq<int>>, start: Coord, cur: Coord, back: Coord, fuel: nat): seq<Coord>
    decreases fuel
  {
    if fuel == 0 then []
    else match Step(image, cur, back)
      case None => []
      case Some(n) => [n] + if n == start then [] else Walk(image, start, n, cur, fuel - 1)
  }

  /** The bound on the number of turns the model takes: one per (pixel, direction) state, and one more. */
  function Fuel(image: seq<seq<int>>): nat
  {
    8 * |image| * (if |image| == 0 then 0 else |image[0]|) + 1
  }

  /** The set boundary after traceBoundary(image, boundary). */
  function Traced(image: seq<seq<int>>, boundary: seq<Coord>): seq<Coord>
  {
    var ones := Ones(image, |image|);
    if ones == [] then boundary
    else
      var s := ones[0];
      AddAll(Add(boundary, s), Walk(image, s, s, Coord(s.x - 1, s.y), Fuel(image)))
  }

  // ---------------------------------------------------------------------------
  // The source's loops
  // ---------------------------------------------------------------------------

  /** findStartPixel: the first 1-cell in raster order, or None when there is none. */
  method FindStartPixel(image: seq<seq<int>>) returns (r: Option<Coord>)
    ensures r.None? <==> forall c :: !Fg(image, c)
    ensures r.Some? ==> FirstCell(image, r.value)
  {
    for y := 0 to |image|
      invariant forall c :: Fg(image, c) ==> c.y >= y
    {
      for x := 0 to |image[y]|
        invariant forall c :: Fg(image, c) ==> c.y > y || (c.y == y && c.x >= x)
      {
        if image[y][x] == ONE {
          assert Fg(image, Coord(x, y));
          return Some(Coord(x, y));
        }
      }
    }
    return None;
  }

  /** The search for the direction that leads back to the backtrack pixel. */
  method StartDirection(cur: Coord, back: Coord) returns (sd: int)
    ensures sd == DirectionOf(cur, back, 0)
  {
    for i := 0 to 8
      invariant DirectionOf(cur, back, 0) == DirectionOf(cur, back, i)
    {
      if Move(cur, DIRECTIONS[i]) == back {
        return i;
      }
    }
    return -1;
  }

  /** The clockwise search for the next 1-cell, from the direction after sd round to sd. */
  method NextPixel(image: seq<seq<int>>, cur: Coord, sd: int) returns (next: Option<Coord>)
    requires 0 <= sd < 8
    ensures next == Scan(image, cur, sd, sd + 1)
  {
    for i := sd + 1 to sd + 9
      invariant Scan(image, cur, sd, sd + 1) == Scan(image, cur, sd, i)
    {
      var n := Around(cur, i);
      if IsBlack(image, n) {
        return Some(n);
      }
    }
    return None;
  }

  /**
   * traceBoundary: nothing is added when the grid has no 1-cell; otherwise
   * the start pixel and every pixel the Moore walk visits are added in order.
   */
  method TraceBoundary(image: seq<seq<int>>, boundary: seq<Coord>) returns (boundary': seq<Coord>)
    ensures boundary' == Traced(image, boundary)
  {
    hide DirectionOf, Scan, Walk, AddAll, Add, Traced, FirstCell, Fg, IsBlack, Ones;
    var startPixel := FindStartPixel(image);
    if startPixel.None? {
      TracedFrom(image, boundary, None);
      return boundary;
    }
    var s := startPixel.value;
    TracedFrom(image, boundary, startPixel);
    ghost var target := Traced(image, boundary);
    var cur, back := s, Coord(s.x - 1, s.y);
    boundary' := Add(boundary, s);
    var steps := Fuel(image);
    var done := false;
    while steps > 0 && !done
      invariant Adjacent8(cur, back)
      invariant !done ==> AddAll(boundary', Walk(image, s, cur, back, steps)) == target
      invariant done ==> boundary' == target
      decreases steps
    {
      var startDirection := StartDirection(cur, back);
      DirectionFound(cur, back);
      if startDirection == -1 {
        assert false;
        break;
      }
      var next := NextPixel(image, cur, startDirection);
      WalkNext(image, boundary', s, cur, back, steps);
      if next.None? {
        done := true;
      } else {
        boundary' := Add(boundary', next.value);
        back, cur := cur, next.value;
        if cur == s {
          done := true;
        }
      }
      steps := steps - 1;
    }
    WalkOut(image, boundary', s, cur, back);
  }

  lemma WalkOut(image: seq<seq<int>>, b: seq<Coord>, s: Coord, cur: Coord, back: Coord)
    ensures AddAll(b, Walk(image, s, cur, back, 0)) == b
  {
  }

  /** Where the trace starts: nothing happens without a 1-cell, otherwise the walk starts at the raster-first one. */
  lemma TracedFrom(image: seq<seq<int>>, boundary: seq<Coord>, start: Option<Coord>)
    requires start.None? <==> forall c :: !Fg(image, c)
    requires start.Some? ==> FirstCell(image, start.value)
    ensures start.None? ==> Traced(image, boundary) == boundary
    ensures start.Some? ==> var s := start.value;
      Traced(image, boundary) == AddAll(Add(boundary, s), Walk(image, s, s, Coord(s.x - 1, s.y), Fuel(image)))
      && Adjacent8(s, Coord(s.x - 1, s.y))
  {
    OnesFirst(image);
    if start.Some? {
      FirstCellUnique(image, start.value, Ones(image, |image|)[0]);
    }
  }

  /** One turn of the loop, seen on the walk still to come. */
  lemma WalkNext(image: seq<seq<int>>, b: seq<Coord>, s: Coord, cur: Coord, back: Coord, steps: nat)
    requires steps > 0 && Adjacent8(cur, back)
    ensures Step(image, cur, back).None? ==> AddAll(b, Walk(image, s, cur, back, steps)) == b
    ensures Step(image, cur, back).Some? ==> var n := Step(image, cur, back).value;
      && Adjacent8(n, cur)
      && AddAll(b, Walk(image, s, cur, back, steps))
         == AddAll(Add(b, n), if n == s then [] else Walk(image, s, n, cur, steps - 1))
      && (n == s ==> AddAll(b, Walk(image, s, cur, back, steps)) == Add(b, n))
  {
    hide DirectionOf, Scan;
    StepSpec(image, cur, back);
    if Step(image, cur, back).Some? {
      var n := Step(image, cur, back).value;
      AddAllCons(b, n, if n == s then [] else Walk(image, s, n, cur, steps - 1));
    }
  }

  // ---------------------------------------------------------------------------
  // What the walk does
  // ---------------------------------------------------------------------------

  /** Every entry of DIRECTIONS is a unit step. */
  lemma DirectionAt(k: int)
    requires 0 <= k < 8
    ensures -1 <= DIRECTIONS[k].x <= 1 && -1 <= DIRECTIONS[k].y <= 1 && DIRECTIONS[k] != Coord(0, 0)
  {
  }

  /** The start direction is always found: back is always one of cur's eight neighbours. */
  lemma DirectionFound(cur: Coord, back: Coord)
    requires Adjacent8(cur, back)
    ensures 0 <= DirectionOf(cur, back, 0) < 8 && Move(cur, DIRECTIONS[DirectionOf(cur, back, 0)]) == back
  {
    var d := Coord(back.x - cur.x, back.y - cur.y);
    var m :=
      if d == Coord(-1, 1) then 0 else if d == Coord(-1, 0) then 1 else if d == Coord(-1, -1) then 2
      else if d == Coord(0, -1) then 3 else if d == Coord(1, -1) then 4 else if d == Coord(1, 0) then 5
      else if d == Coord(1, 1) then 6 else 7;
    assert Move(cur, DIRECTIONS[m]) == back;
    DirectionMissing(cur, back, 0, m);
  }

  lemma {:induction false} DirectionMissing(cur: Coord, back: Coord, i: nat, m: nat)
    requires i <= m < 8 && Move(cur, DIRECTIONS[m]) == back
    ensures DirectionOf(cur, back, i) != -1
    decreases 8 - i
  {
    if i < m && Move(cur, DIRECTIONS[i]) != back {
      DirectionMissing(cur, back, i + 1, m);
    }
  }

  /** The scan finds nothing exactly when no direction it looks at holds a 1-cell, and finds only neighbours. */
  lemma {:induction false} ScanSpec(image: seq<seq<int>>, cur: Coord, sd: nat, i: nat)
    requires sd < 8 && sd + 1 <= i <= sd + 9
    ensures Scan(image, cur, sd, i).None? <==> forall m :: i <= m < sd + 9 ==> !IsBlack(image, Around(cur, m))
    ensures Scan(image, cur, sd, i).Some? ==>
      IsBlack(image, Scan(image, cur, sd, i).value) && Adjacent8(cur, Scan(image, cur, sd, i).value)
    decreases sd + 9 - i
  {
    hide IsBlack, Around, Adjacent8;
    if i < sd + 9 {
      ScanSpec(image, cur, sd, i + 1);
      AroundAdjacent(cur, i);
    }
  }

  lemma AroundAdjacent(c: Coord, m: nat)
    ensures Adjacent8(c, Around(c, m))
  {
    DirectionAt(m % 8);
  }

  /** A turn of the loop stops exactly at a pixel with no 1-cell round it, and otherwise moves to a neighbouring 1-cell. */
  lemma StepSpec(image: seq<seq<int>>, cur: Coord, back: Coord)
    requires Adjacent8(cur, back)
    ensures Step(image, cur, back).None? <==> Isolated(image, cur)
    ensures Step(image, cur, back).Some? ==>
      IsBlack(image, Step(image, cur, back).value) && Adjacent8(cur, Step(image, cur, back).value)
  {
    hide DirectionOf, Scan, IsBlack;
    DirectionFound(cur, back);
    var sd := DirectionOf(cur, back, 0);
    ScanSpec(image, cur, sd, sd + 1);
    if Scan(image, cur, sd, sd + 1).None? {
      forall k | 0 <= k < 8
        ensures !IsBlack(image, Move(cur, DIRECTIONS[k]))
      {
        var m := if k > sd then k else k + 8;
        assert Around(cur, m) == Move(cur, DIRECTIONS[k]);
      }
    }
  }

  /**
   * The walk's pixels are 1-cells, the first a neighbour of cur and each a
   * neighbour of the one before; only the last may be the start pixel.
   */
  /** Walk unfolded once. */
  lemma WalkUnfold(image: seq<seq<int>>, start: Coord, cur: Coord, back: Coord, fuel: nat)
    ensures Walk(image, start, cur, back, fuel) ==
      if fuel == 0 || Step(image, cur, back).None? then []
      else var n := Step(image, cur, back).value;
        [n] + if n == start then [] else Walk(image, start, n, cur, fuel - 1)
  {
    hide DirectionOf, Scan, Step;
  }

  /**
   * The walk's pixels are 1-cells, the first a neighbour of cur and each a
   * neighbour of the one before; only the last may be the start pixel.
   */
  lemma {:induction false} WalkSteps(image: seq<seq<int>>, start: Coord, cur: Coord, back: Coord, fuel: nat)
    requires Adjacent8(cur, back)
    ensures var w := Walk(image, start, cur, back, fuel);
      && |w| <= fuel
      && (forall k :: 0 <= k < |w| ==> IsBlack(image, w[k]))
      && (|w| > 0 ==> Adjacent8(cur, w[0]))
      && (forall k :: 0 <= k < |w| - 1 ==> Adjacent8(w[k], w[k + 1]) && w[k] != start)
    decreases fuel
  {
    hide DirectionOf, Scan, Step, Walk, IsBlack, Isolated;
    WalkUnfold(image, start, cur, back, fuel);
    if fuel > 0 && Step(image, cur, back).Some? {
      StepSpec(image, cur, back);
      var n := Step(image, cur, back).value;
      if n != start {
        WalkSteps(image, start, n, cur, fuel - 1);
        var rest := Walk(image, start, n, cur, fuel - 1);
        var w := Walk(image, start, cur, back, fuel);
        assert w == [n] + rest;
        forall k | 0 <= k < |w|
          ensures IsBlack(image, w[k])
        {
          if k > 0 {
            assert w[k] == rest[k - 1];
          }
        }
        forall k | 0 <= k < |w| - 1
          ensures Adjacent8(w[k], w[k + 1]) && w[k] != start
        {
          if k > 0 {
            assert w[k] == rest[k - 1] && w[k + 1] == rest[k];
          }
        }
      }
    }
  }

  /** The walk ends back at the start, at a pixel with no 1-cell round it, or when the turns run out. */
  lemma {:induction false} WalkStops(image: seq<seq<int>>, start: Coord, cur: Coord, back: Coord, fuel: nat)
    requires Adjacent8(cur, back)
    ensures var w := Walk(image, start, cur, back, fuel);
      || |w| == fuel
      || (|w| > 0 && w[|w| - 1] == start)
      || Isolated(image, if w == [] then cur else w[|w| - 1])
    decreases fuel
  {
    hide DirectionOf, Scan, Step, Walk, IsBlack, Isolated;
    WalkUnfold(image, start, cur, back, fuel);
    if fuel > 0 {
      StepSpec(image, cur, back);
      if Step(image, cur, back).Some? {
        var n := Step(image, cur, back).value;
        if n != start {
          WalkStops(image, start, n, cur, fuel - 1);
          var rest := Walk(image, start, n, cur, fuel - 1);
          var w := Walk(image, start, cur, back, fuel);
          assert w == [n] + rest;
          if rest != [] {
            assert w[|w| - 1] == rest[|rest| - 1];
          }
        }
      }
    }
  }

  // ---------------------------------------------------------------------------
  // The start pixel
  // ---------------------------------------------------------------------------

  /** The raster-first 1-cell is unique. */
  lemma FirstCellUnique(image: seq<seq<int>>, a: Coord, b: Coord)
    requires FirstCell(image, a) && FirstCell(image, b)
    ensures a == b
  {
    assert !RasterBefore(a, b) && !RasterBefore(b, a);
  }

  /** The 1-cells in raster order start with the first 1-cell, and there are none only when the grid has none. */
  lemma OnesFirst(image: seq<seq<int>>)
    ensures Ones(image, |image|) == [] <==> forall c :: !Fg(image, c)
    ensures Ones(image, |image|) != [] ==> FirstCell(image, Ones(image, |image|)[0])
  {
    var ones := Ones(image, |image|);
    OnesSpec(image, |image|);
    if ones != [] {
      assert ones[0] in ones;
      forall c | Fg(image, c)
        ensures !RasterBefore(c, ones[0])
      {
        assert c in ones;
        var k :| 0 <= k < |ones| && ones[k] == c;
        if k > 0 {
          assert RasterBefore(ones[0], ones[k]);
        }
      }
    }
  }

  /**
   * Traced into a fresh set: empty exactly when the grid has no 1-cell,
   * otherwise opened by the first 1-cell in raster order; every entry is a
   * 1-cell, and none repeats.
   */
  lemma TracedSpec(image: seq<seq<int>>)
    ensures var t := Traced(image, []);
      && Distinct(t)
      && (t == [] <==> forall c :: !Fg(image, c))
      && (t != [] ==> FirstCell(image, t[0]))
      && forall c :: c in t ==> Fg(image, c)
  {
    hide DirectionOf, Scan, Step, Walk, Isolated, AddAll, Fuel;
    OnesFirst(image);
    var ones := Ones(image, |image|);
    if ones != [] {
      var s := ones[0];
      var w := Walk(image, s, s, Coord(s.x - 1, s.y), Fuel(image));
      WalkSteps(image, s, s, Coord(s.x - 1, s.y), Fuel(image));
      AddAllSpec([s], w);
      assert Add([], s) == [s];
      forall c | c in w
        ensures Fg(image, c)
      {
        var k :| 0 <= k < |w| && w[k] == c;
      }
    }
  }
}
