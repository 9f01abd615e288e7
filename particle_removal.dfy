/**
 * The particle cleaner of src/particleRemoval.js. ParticleWrapper holds the three
 * coordinate sets of one particle; ParticleRemoval floods particles, repaints small
 * ones with their major neighbour, merges narrow runs of large ones, and removes
 * one-pixel spurs. Both share the grid, which they change in place.
 */
module ParticleRemoval {
  import opened Constants
  import opened Helper
  import opened MajorNeighbour
  import opened Neighbourhood
  import opened ParticleSpec
  import opened RemovalSpec
  import opened ParticleProps
  import PixelRows

  /** The result of ParticleWrapper.getMajorNeighbour. */
  datatype WrapperMajor = WrapperMajor(neighbour: Option<Coord>, count: nat, large: bool)

  lemma SpreadStep(nb: seq<Coord>, vis: seq<Coord>, i: nat, exc: seq<Coord>, h: int, w: int)
    requires i < |vis|
    ensures Spread(nb, vis[..i + 1], vis, exc, h, w) == Around(Spread(nb, vis[..i], vis, exc, h, w), vis[i], vis, exc, h, w)
  {
    assert vis[..i + 1][..i] == vis[..i];
  }

  class ParticleWrapper {
    const grid: array2<Pixel>
    /** SIZE_LIMIT, which the constructor call at src/particleRemoval.js:476 leaves undefined. */
    const sizeLimit: Option<nat>
    var visited: seq<Coord>
    var neighbours: seq<Coord>
    var excluded: seq<Coord>

    /** The sets hold no repeats, and visited pixels and neighbours lie on the grid. */
    ghost predicate Valid()
      reads this
    {
      && Distinct(visited) && Distinct(neighbours) && Distinct(excluded)
      && AllInRange(visited, grid.Length0, grid.Length1)
      && AllInRange(neighbours, grid.Length0, grid.Length1)
    }

    predicate Empty()
      reads this
    {
      visited == [] && neighbours == [] && excluded == []
    }

    constructor(grid: array2<Pixel>, sizeLimit: Option<nat>)
      ensures this.grid == grid && this.sizeLimit == sizeLimit
      ensures Empty() && Valid()
    {
      this.grid := grid;
      this.sizeLimit := sizeLimit;
      visited := [];
      neighbours := [];
      excluded := [];
    }

    method Reset()
      modifies this
      ensures Empty() && Valid()
    {
      visited := [];
      neighbours := [];
      excluded := [];
    }

    method IsVisited(c: Coord) returns (b: bool)
      ensures b <==> c in visited
    {
      b := c in visited;
    }

    method AddVisited(c: Coord)
      requires Valid() && InRange(c, grid.Length0, grid.Length1)
      modifies this
      ensures visited == Add(old(visited), c)
      ensures neighbours == old(neighbours) && excluded == old(excluded)
      ensures Valid()
    {
      visited := Add(visited, c);
    }

    method AddExcluded(c: Coord)
      requires Valid()
      modifies this
      ensures excluded == Add(old(excluded), c)
      ensures visited == old(visited) && neighbours == old(neighbours)
      ensures Valid()
    {
      excluded := Add(excluded, c);
    }

    /** addVisited for each of cells, in order. */
    method AddVisitedAll(cells: seq<Coord>)
      requires Valid() && AllInRange(cells, grid.Length0, grid.Length1)
      modifies this
      ensures visited == AddAll(old(visited), cells)
      ensures neighbours == old(neighbours) && excluded == old(excluded)
      ensures Valid()
    {
      for t := 0 to |cells|
        invariant Valid()
        invariant visited == AddAll(old(visited), cells[..t])
        invariant neighbours == old(neighbours) && excluded == old(excluded)
      {
        assert cells[..t + 1] == cells[..t] + [cells[t]];
        AddAllSnoc(old(visited), cells[..t], cells[t]);
        AddVisited(cells[t]);
      }
      assert cells[..|cells|] == cells;
    }

    /** addExcluded for each of cells, in order. */
    method AddExcludedAll(cells: seq<Coord>)
      requires Valid()
      modifies this
      ensures excluded == AddAll(old(excluded), cells)
      ensures visited == old(visited) && neighbours == old(neighbours)
      ensures Valid()
    {
      for t := 0 to |cells|
        invariant Valid()
        invariant excluded == AddAll(old(excluded), cells[..t])
        invariant visited == old(visited) && neighbours == old(neighbours)
      {
        assert cells[..t + 1] == cells[..t] + [cells[t]];
        AddAllSnoc(old(excluded), cells[..t], cells[t]);
        AddExcluded(cells[t]);
      }
      assert cells[..|cells|] == cells;
    }

    /** Every visited pixel, in order, offers its left, right, top and bottom pixel. */
    method AddNeighbour()
      requires Valid()
      modifies this
      ensures visited == old(visited) && excluded == old(excluded)
      ensures neighbours == Spread(old(neighbours), visited, visited, excluded, grid.Length0, grid.Length1)
      ensures Valid()
    {
      var h := grid.Length0;
      var w := grid.Length1;
      var vis := visited;
      var exc := excluded;
      var nb := neighbours;
      for i := 0 to |vis|
        invariant unchanged(this)
        invariant nb == Spread(old(neighbours), vis[..i], vis, exc, h, w)
      {
        var n := vis[i];
        ghost var n0 := nb;
        var left := Left(n);
        if left.Some? && left.value !in nb && left.value !in vis && left.value !in exc {
          nb := nb + [left.value];
        }
        assert nb == Offer(n0, Left(n), vis, exc);
        ghost var n1 := nb;
        var right := Right(n, w);
        if right.Some? && right.value !in nb && right.value !in vis && right.value !in exc {
          nb := nb + [right.value];
        }
        assert nb == Offer(n1, Right(n, w), vis, exc);
        ghost var n2 := nb;
        var top := Top(n);
        if top.Some? && top.value !in nb && top.value !in vis && top.value !in exc {
          nb := nb + [top.value];
        }
        assert nb == Offer(n2, Top(n), vis, exc);
        ghost var n3 := nb;
        var bottom := Bottom(n, h);
        if bottom.Some? && bottom.value !in nb && bottom.value !in vis && bottom.value !in exc {
          nb := nb + [bottom.value];
        }
        assert nb == Offer(n3, Bottom(n, h), vis, exc);
        SpreadStep(old(neighbours), vis, i, exc, h, w);
      }
      assert vis[..|vis|] == vis;
      SpreadPrefix(old(neighbours), vis, vis, exc, h, w);
      SpreadInRange(old(neighbours), vis, vis, exc, h, w);
      neighbours := nb;
    }

    method GroupPixelsByRow() returns (groupedPixels: seq<seq<Coord>>)
      requires Valid()
      ensures groupedPixels == PixelRows.GroupRows(visited)
    {
      groupedPixels := PixelRows.GroupPixelsByRow(visited);
    }

    /** The major neighbour of the neighbour set; large when more than SIZE_LIMIT pixels are visited. */
    method GetMajorNeighbour() returns (m: WrapperMajor)
      requires Valid()
      ensures IsMajor(Contents(grid), neighbours, m.neighbour, m.count)
      ensures m.count > 0 <==> m.neighbour.Some?
      ensures m.neighbour.Some? ==> m.neighbour.value in neighbours && InRange(m.neighbour.value, grid.Length0, grid.Length1)
      ensures m.large <==> sizeLimit.Some? && |visited| > sizeLimit.value
    {
      InRangeOnBoard(Contents(grid), neighbours, grid.Length0, grid.Length1);
      var neighbour, count := MajorOf(grid, neighbours);
      MajorFacts(Contents(grid), neighbours, neighbour, count);
      var large := false;
      if sizeLimit.Some? && |visited| > sizeLimit.value {
        large := true;
      }
      m := WrapperMajor(neighbour, count, large);
    }
  }

  function Max(a: int, b: int): int
  {
    if a < b then b else a
  }

  /** Every pixel from position start on is a 4-neighbour of an earlier one from start on. */
  predicate Linked(vs: seq<Coord>, start: nat)
  {
    forall k :: start < k < |vs| ==> TouchesEarlier(vs, start, k)
  }

  /** vs[k] is a 4-neighbour of some pixel visited at or after start and before it. */
  predicate TouchesEarlier(vs: seq<Coord>, start: nat, k: nat)
    requires k < |vs|
  {
    exists l :: start <= l < k && Adjacent4(vs[k], vs[l])
  }

  /**
   * v grows v0 by pixels of colour target, each after the first touching an earlier
   * new one, and ends up no longer than bound unless v0 already was.
   */
  predicate Grown(g: seq<seq<Pixel>>, v0: seq<Coord>, v: seq<Coord>, target: Pixel, bound: nat)
  {
    && |v0| <= |v| <= Max(|v0|, bound)
    && v[..|v0|] == v0
    && (forall k :: |v0| <= k < |v| ==> ColourAt(g, v[k]) == target)
    && Linked(v, |v0|)
  }

  /** The first pixel of a fill: one pixel of the target colour grows the visited list. */
  lemma GrownOne(g: seq<seq<Pixel>>, v: seq<Coord>, target: Pixel, bound: nat)
    requires 0 < |v| <= bound && ColourAt(g, v[|v| - 1]) == target
    ensures Grown(g, v[..|v| - 1], v, target, bound)
  {
    assert v == v[..|v| - 1] + [v[|v| - 1]];
  }

  /**
   * detectParticle visits c: it is on the grid, has colour target, is not visited yet,
   * and no more than limit pixels are visited.
   */
  predicate Admits(g: seq<seq<Pixel>>, v0: seq<Coord>, c: Coord, target: Pixel, limit: nat)
  {
    OnBoard(g, c) && g[c.y][c.x] == target && |v0| <= limit && c !in v0
  }

  /** Two growths in a row, the second starting next to the first new pixel, are one growth. */
  lemma GrownJoin(g: seq<seq<Pixel>>, v0: seq<Coord>, v1: seq<Coord>, v2: seq<Coord>, target: Pixel, bound: nat)
    requires |v0| < |v1|
    requires Grown(g, v0, v1, target, bound) && Grown(g, v1, v2, target, bound)
    requires |v2| > |v1| ==> Adjacent4(v2[|v1|], v1[|v0|])
    ensures Grown(g, v0, v2, target, bound)
  {
    var start := |v0|;
    assert v2[..|v1|] == v1;
    assert v2[..start] == v1[..start];
    forall k | start <= k < |v2|
      ensures ColourAt(g, v2[k]) == target
    {
      if k < |v1| {
        assert v2[k] == v1[k];
      }
    }
    LinkedJoin(v0, v1, v2);
  }

  lemma LinkedJoin(v0: seq<Coord>, v1: seq<Coord>, v2: seq<Coord>)
    requires |v0| < |v1| <= |v2| && v2[..|v1|] == v1
    requires Linked(v1, |v0|) && Linked(v2, |v1|)
    requires |v2| > |v1| ==> Adjacent4(v2[|v1|], v1[|v0|])
    ensures Linked(v2, |v0|)
  {
    var start := |v0|;
    forall k | start < k < |v2|
      ensures TouchesEarlier(v2, start, k)
    {
      if k < |v1| {
        PrefixAt(v1, v2, k);
        assert TouchesEarlier(v1, start, k);
        var l :| start <= l < k && Adjacent4(v1[k], v1[l]);
        PrefixAt(v1, v2, l);
        assert start <= l < k && Adjacent4(v2[k], v2[l]);
      } else if k > |v1| {
        assert TouchesEarlier(v2, |v1|, k);
        var l :| |v1| <= l < k && Adjacent4(v2[k], v2[l]);
        assert start <= l < k && Adjacent4(v2[k], v2[l]);
      } else {
        PrefixAt(v1, v2, start);
        assert start <= start < k && Adjacent4(v2[k], v2[start]);
      }
    }
  }

  /**
   * The fill is complete from position lo to hi of v: every on-grid 4-neighbour of
   * colour target of those pixels is in v as well.
   */
  ghost predicate Closed(g: seq<seq<Pixel>>, v: seq<Coord>, lo: nat, hi: nat, target: Pixel)
  {
    forall k, d :: lo <= k < hi && k < |v| && Adjacent4(v[k], d) && OnBoard(g, d) && g[d.y][d.x] == target ==> d in v
  }

  /** Completeness of a stretch survives appending to v. */
  lemma ClosedExtend(g: seq<seq<Pixel>>, v: seq<Coord>, v': seq<Coord>, lo: nat, hi: nat, target: Pixel)
    requires hi <= |v| <= |v'| && v'[..|v|] == v && Closed(g, v, lo, hi, target)
    ensures Closed(g, v', lo, hi, target)
  {
    forall k, d | lo <= k < hi && k < |v'| && Adjacent4(v'[k], d) && OnBoard(g, d) && g[d.y][d.x] == target
      ensures d in v'
    {
      PrefixAt(v, v', k);
      var t :| 0 <= t < |v| && v[t] == d;
      PrefixAt(v, v', t);
    }
  }

  /** A member of a prefix is a member of the whole. */
  lemma PrefixMember(v: seq<Coord>, v': seq<Coord>, d: Coord)
    requires |v| <= |v'| && v'[..|v|] == v && d in v
    ensures d in v'
  {
    var t :| 0 <= t < |v| && v[t] == d;
    PrefixAt(v, v', t);
  }

  /**
   * The fill from c is complete once the four recursive calls are done, each of which
   * visited its pixel when it could and filled completely from there.
   */
  lemma SpillClosed(g: seq<seq<Pixel>>, c: Coord, v1: seq<Coord>, v2: seq<Coord>, v3: seq<Coord>,
                    v4: seq<Coord>, v5: seq<Coord>, target: Pixel, limit: nat)
    requires 0 < |v1| && v1[|v1| - 1] == c
    requires |v1| <= |v2| && v2[..|v1|] == v1 && |v2| <= |v3| && v3[..|v2|] == v2
    requires |v3| <= |v4| && v4[..|v3|] == v3 && |v4| <= |v5| && v5[..|v4|] == v4
    requires |v5| <= limit
    requires Visits(g, Coord(c.x + 1, c.y), v1, v2, target, limit)
    requires Visits(g, Coord(c.x, c.y + 1), v2, v3, target, limit)
    requires Visits(g, Coord(c.x - 1, c.y), v3, v4, target, limit)
    requires Visits(g, Coord(c.x, c.y - 1), v4, v5, target, limit)
    ensures Closed(g, v5, |v1| - 1, |v5|, target)
  {
    ClosedExtend(g, v2, v5, |v1|, |v2|, target);
    ClosedExtend(g, v3, v5, |v2|, |v3|, target);
    ClosedExtend(g, v4, v5, |v3|, |v4|, target);
    assert v5[..|v4|][..|v3|] == v5[..|v3|];
    assert v5[..|v3|][..|v2|] == v5[..|v2|];
    assert v5[..|v2|][..|v1|] == v5[..|v1|];
    forall k, d | |v1| - 1 <= k < |v5| && Adjacent4(v5[k], d) && OnBoard(g, d) && g[d.y][d.x] == target
      ensures d in v5
    {
      if k == |v1| - 1 {
        PrefixAt(v1, v5, k);
        Adjacent4Cases(c, d);
        if d == Coord(c.x + 1, c.y) {
          PrefixMember(v2, v5, d);
        } else if d == Coord(c.x, c.y + 1) {
          PrefixMember(v3, v5, d);
        } else if d == Coord(c.x - 1, c.y) {
          PrefixMember(v4, v5, d);
        }
      } else if k < |v2| {
        assert Closed(g, v5, |v1|, |v2|, target);
      } else if k < |v3| {
        assert Closed(g, v5, |v2|, |v3|, target);
      } else if k < |v4| {
        assert Closed(g, v5, |v3|, |v4|, target);
      }
    }
  }

  /**
   * One recursive call of detectParticle at d took v to v': it visited d when d was on
   * the grid, of colour target and the cap allowed it, and filled completely from there.
   */
  ghost predicate Visits(g: seq<seq<Pixel>>, d: Coord, v: seq<Coord>, v': seq<Coord>, target: Pixel, limit: nat)
  {
    && (OnBoard(g, d) && g[d.y][d.x] == target && |v| <= limit ==> d in v')
    && (|v'| <= limit ==> Closed(g, v', |v|, |v'|, target))
  }

  /**
   * One pass of the retry loop of removalProcess(0) at c took the grid from g0 to g1 and
   * the particle wrapper's visited and neighbour sets from v0, nb0 to v1, nb1, with
   * excluded set exc:
   *  - the flood fill grew v0 by pixels of c's colour, starting with c when c was not
   *    visited yet and the cap allowed it, and was complete unless it hit the cap;
   *  - a particle of fewer than SIZE_LIMIT pixels gets its neighbour set from addNeighbour
   *    and is repainted as SmallResult says;
   *  - a larger one keeps its neighbour set and has its rows merged as MergeResult says.
   * modified is the flag the pass leaves in modified[0].
   */
  ghost predicate PassOutcome(g0: seq<seq<Pixel>>, g1: seq<seq<Pixel>>, modified: bool,
                              v0: seq<Coord>, nb0: seq<Coord>, exc: seq<Coord>, v1: seq<Coord>, nb1: seq<Coord>,
                              c: Coord, limit: nat, h: int, w: int)
  {
    && IsGrid(g0, h, w) && InRange(c, h, w) && AllInRange(v1, h, w)
    && Grown(g0, v0, v1, g0[c.y][c.x], limit + 1)
    && (|v1| > |v0| <==> |v0| <= limit && c !in v0)
    && (|v1| > |v0| ==> v1[|v0|] == c)
    && (|v1| <= limit ==> Closed(g0, v1, |v0|, |v1|, g0[c.y][c.x]))
    && (|v1| < limit ==>
          nb1 == Spread(nb0, v1, v1, exc, h, w)
          && Merge(g1, modified) == SmallResult(g0, v1, nb1, c, h, w))
    && (|v1| >= limit ==>
          nb1 == nb0
          && RowGroups(PixelRows.GroupRows(v1), h, w)
          && Merge(g1, modified)
             == MergeResult(g0, PixelRows.GroupRows(v1), |PixelRows.GroupRows(v1)|, RoundSqrt(limit), h, w))
  }

  /** A pass that starts from an empty visited set visits its start pixel first. */
  lemma PassFromEmpty(g0: seq<seq<Pixel>>, g1: seq<seq<Pixel>>, modified: bool, v1: seq<Coord>, nb1: seq<Coord>,
                      c: Coord, limit: nat, h: int, w: int)
    requires PassOutcome(g0, g1, modified, [], [], [], v1, nb1, c, limit, h, w)
    ensures v1 != [] && v1[0] == c
  {
  }

  /** The 4-neighbours of c are the four pixels detectParticle recurses into. */
  lemma Adjacent4Cases(c: Coord, d: Coord)
    requires Adjacent4(c, d)
    ensures d == Coord(c.x + 1, c.y) || d == Coord(c.x, c.y + 1) || d == Coord(c.x - 1, c.y) || d == Coord(c.x, c.y - 1)
  {
  }

  lemma PrefixAt<T>(v1: seq<T>, v2: seq<T>, k: nat)
    requires |v1| <= |v2| && v2[..|v1|] == v1 && k < |v1|
    ensures v2[k] == v1[k]
  {
    assert v2[..|v1|][k] == v2[k];
  }

  /** The four conditional pushes written inline in removeExceedingRow build the four sides in order. */
  lemma FourPushes(x: int, y: int, top: bool, bottom: bool, left: bool, right: bool,
                   n1: seq<Coord>, n2: seq<Coord>, n3: seq<Coord>, n4: seq<Coord>)
    requires n1 == if top then [] + [Coord(x, y - 1)] else []
    requires n2 == if bottom then n1 + [Coord(x, y + 1)] else n1
    requires n3 == if left then n2 + [Coord(x - 1, y)] else n2
    requires n4 == if right then n3 + [Coord(x + 1, y)] else n3
    ensures n4 == (if top then [Coord(x, y - 1)] else []) + (if bottom then [Coord(x, y + 1)] else [])
      + (if left then [Coord(x - 1, y)] else []) + (if right then [Coord(x + 1, y)] else [])
  {
    var t: seq<Coord> := if top then [Coord(x, y - 1)] else [];
    var b: seq<Coord> := if bottom then [Coord(x, y + 1)] else [];
    var l: seq<Coord> := if left then [Coord(x - 1, y)] else [];
    var r: seq<Coord> := if right then [Coord(x + 1, y)] else [];
    assert n1 == t;
    assert n2 == t + b;
    assert n3 == t + b + l;
  }

  class ParticleRemoval {
    const grid: array2<Pixel>
    const sizeLimit: nat

    constructor(grid: array2<Pixel>, sizeLimit: nat)
      ensures this.grid == grid && this.sizeLimit == sizeLimit
    {
      this.grid := grid;
      this.sizeLimit := sizeLimit;
    }

    method GetMajorNeighbour(nbrs: seq<Coord>) returns (neighbour: Option<Coord>, count: nat)
      requires AllInRange(nbrs, grid.Length0, grid.Length1)
      ensures IsMajor(Contents(grid), nbrs, neighbour, count)
    {
      InRangeOnBoard(Contents(grid), nbrs, grid.Length0, grid.Length1);
      neighbour, count := MajorOf(grid, nbrs);
    }

    /** What is left of the SIZE_LIMIT + 1 pixels detectParticle may visit. */
    function Budget(n: nat): nat
    {
      if n > sizeLimit then 0 else sizeLimit + 1 - n
    }

    /**
     * The recursive flood fill. It only appends to visited (Grown, bounded by
     * SIZE_LIMIT + 1), the first new pixel being (x, y); it adds (x, y) exactly when that
     * pixel is on the grid, has targetColor, is not visited yet and at most SIZE_LIMIT
     * pixels are visited.
     */
    method DetectParticle(pw: ParticleWrapper, x: int, y: int, targetColor: Pixel)
      requires pw.grid == grid && pw.Valid()
      modifies pw
      decreases Budget(|pw.visited|), 1
      ensures pw.Valid()
      ensures pw.neighbours == old(pw.neighbours) && pw.excluded == old(pw.excluded)
      ensures Grown(Contents(grid), old(pw.visited), pw.visited, targetColor, sizeLimit + 1)
      ensures |pw.visited| > |old(pw.visited)| <==> Admits(Contents(grid), old(pw.visited), Coord(x, y), targetColor, sizeLimit)
      ensures |pw.visited| > |old(pw.visited)| ==> pw.visited[|old(pw.visited)|] == Coord(x, y)
      ensures OnBoard(Contents(grid), Coord(x, y)) && Contents(grid)[y][x] == targetColor && |old(pw.visited)| <= sizeLimit ==>
        Coord(x, y) in pw.visited
      ensures |pw.visited| <= sizeLimit ==> Closed(Contents(grid), pw.visited, |old(pw.visited)|, |pw.visited|, targetColor)
    {
      if x < 0 || x >= grid.Length1 || y < 0 || y >= grid.Length0 {
        return;
      }
      if !SameColor(grid[y, x], targetColor) {
        return;
      }
      if |pw.visited| > sizeLimit {
        return;
      }
      var seen := pw.IsVisited(Coord(x, y));
      if seen {
        return;
      }
      pw.AddVisited(Coord(x, y));
      assert pw.visited == old(pw.visited) + [Coord(x, y)];
      Spill(pw, x, y, targetColor);
    }

    /**
     * The recursion of detectParticle from the pixel (x, y) it has just visited: right,
     * bottom, left, top. Counting (x, y), the pixels from it on form one growth.
     */
    method Spill(pw: ParticleWrapper, x: int, y: int, targetColor: Pixel)
      requires pw.grid == grid && pw.Valid() && 0 < |pw.visited| <= sizeLimit + 1
      requires pw.visited[|pw.visited| - 1] == Coord(x, y)
      requires ColourAt(Contents(grid), Coord(x, y)) == targetColor
      modifies pw
      decreases Budget(|pw.visited|) + 1, 0
      ensures pw.Valid()
      ensures pw.neighbours == old(pw.neighbours) && pw.excluded == old(pw.excluded)
      ensures |old(pw.visited)| <= |pw.visited| && pw.visited[..|old(pw.visited)|] == old(pw.visited)
      ensures Grown(Contents(grid), old(pw.visited)[..|old(pw.visited)| - 1], pw.visited, targetColor, sizeLimit + 1)
      ensures |pw.visited| <= sizeLimit ==> Closed(Contents(grid), pw.visited, |old(pw.visited)| - 1, |pw.visited|, targetColor)
    {
      hide Grown, Closed, Visits, Linked;
      ghost var g := Contents(grid);
      ghost var c := Coord(x, y);
      ghost var v1 := pw.visited;
      ghost var v0 := v1[..|v1| - 1];
      GrownOne(g, v1, targetColor, sizeLimit + 1);
      Branch(pw, x + 1, y, targetColor, v0);
      ghost var v2 := pw.visited;
      Branch(pw, x, y + 1, targetColor, v0);
      ghost var v3 := pw.visited;
      Branch(pw, x - 1, y, targetColor, v0);
      ghost var v4 := pw.visited;
      Branch(pw, x, y - 1, targetColor, v0);
      ghost var v5 := pw.visited;
      if |v5| <= sizeLimit {
        SpillClosed(g, c, v1, v2, v3, v4, v5, targetColor, sizeLimit);
      }
    }

    /** One recursive call of detectParticle, next to the first pixel visited after v0. */
    method Branch(pw: ParticleWrapper, x: int, y: int, targetColor: Pixel, ghost v0: seq<Coord>)
      requires pw.grid == grid && pw.Valid() && |v0| < |pw.visited|
      requires Adjacent4(Coord(x, y), pw.visited[|v0|])
      requires Grown(Contents(grid), v0, pw.visited, targetColor, sizeLimit + 1)
      modifies pw
      decreases Budget(|pw.visited|), 2
      ensures pw.Valid()
      ensures pw.neighbours == old(pw.neighbours) && pw.excluded == old(pw.excluded)
      ensures |old(pw.visited)| <= |pw.visited| && pw.visited[..|old(pw.visited)|] == old(pw.visited)
      ensures Grown(Contents(grid), v0, pw.visited, targetColor, sizeLimit + 1)
      ensures Visits(Contents(grid), Coord(x, y), old(pw.visited), pw.visited, targetColor, sizeLimit)
    {
      ghost var v1 := pw.visited;
      DetectParticle(pw, x, y, targetColor);
      GrownJoin(Contents(grid), v0, v1, pw.visited, targetColor, sizeLimit + 1);
    }

    /**
     * Paints cells with the colour of pixel n, read again at every pixel as the source
     * does; painting n itself keeps that colour, so all cells end up with it.
     */
    method PaintWith(cells: seq<Coord>, n: Coord)
      requires AllInRange(cells, grid.Length0, grid.Length1) && InRange(n, grid.Length0, grid.Length1)
      modifies grid
      ensures AllOnBoard(old(Contents(grid)), cells)
      ensures Contents(grid) == PaintCells(old(Contents(grid)), cells, old(grid[n.y, n.x]))
    {
      ghost var g0 := Contents(grid);
      ghost var col := grid[n.y, n.x];
      InRangeOnBoard(g0, cells, grid.Length0, grid.Length1);
      for t := 0 to |cells|
        invariant grid[n.y, n.x] == col
        invariant Contents(grid) == PaintCells(g0, cells[..t], col)
      {
        var c := cells[t];
        assert cells[..t + 1][..t] == cells[..t];
        Write(grid, c.y, c.x, grid[n.y, n.x]);
      }
      assert cells[..|cells|] == cells;
    }

    /**
     * The small-particle branch of removalProcess: the neighbours of the visited pixels,
     * their major neighbour, and the repaint of every visited pixel with its colour when
     * it differs from that of (j, i).
     */
    method RepaintSmall(pw: ParticleWrapper, i: int, j: int) returns (modified: bool)
      requires pw.grid == grid && pw.Valid() && InRange(Coord(j, i), grid.Length0, grid.Length1)
      modifies pw, grid
      ensures pw.Valid() && pw.visited == old(pw.visited) && pw.excluded == old(pw.excluded)
      ensures pw.neighbours == Spread(old(pw.neighbours), pw.visited, pw.visited, pw.excluded, grid.Length0, grid.Length1)
      ensures Merge(Contents(grid), modified) == SmallResult(old(Contents(grid)), pw.visited, pw.neighbours, Coord(j, i), grid.Length0, grid.Length1)
    {
      ghost var g0 := Contents(grid);
      pw.AddNeighbour();
      var m := pw.GetMajorNeighbour();
      modified := RepaintWithMajor(pw.visited, Coord(j, i), m.neighbour, m.count, g0);
      SmallOutcome(g0, Contents(grid), pw.visited, pw.neighbours, Coord(j, i), grid.Length0, grid.Length1, m.neighbour, m.count, modified);
    }

    /**
     * One contiguous run of row y in group k: the narrow check, and for a narrow run the
     * merge with its major neighbour.
     */
    method ProcessRun(rpw: ParticleWrapper, grouped: seq<seq<Coord>>, k: nat, y: int, run: seq<int>) returns (repainted: bool)
      requires rpw.grid == grid && rpw.Valid() && rpw.Empty()
      requires k < |grouped| && 0 <= y < grid.Length0 && |run| > 0
      requires forall t :: 0 <= t < |run| ==> 0 <= run[t] < grid.Length1
      modifies rpw, grid
      ensures rpw.Valid() && rpw.Empty()
      ensures Merge(Contents(grid), repainted) == RunResult(old(Contents(grid)), grouped, k, y, run, RoundSqrt(sizeLimit), grid.Length0, grid.Length1)
    {
      var w := grid.Length1;
      ghost var g0 := Contents(grid);
      ghost var narrow := NarrowRun(g0, y, run, RoundSqrt(sizeLimit));
      repainted := false;
      if |run| < RoundSqrt(sizeLimit) {
        var first := run[0];
        var last := run[|run| - 1];
        if first - 1 >= 0 && last + 1 < w && !SameColor(grid[y, first - 1], grid[y, first]) && !SameColor(grid[y, last + 1], grid[y, last]) {
          assert narrow;
          repainted := RepaintRun(rpw, grouped, k, y, run);
          return;
        }
      }
      assert !narrow;
      RunResultNotNarrow(g0, grouped, k, y, run, RoundSqrt(sizeLimit), grid.Length0, w);
    }

    /** The neighbours of a run: its pixels visited, the rows of groups k - 1 and k + 1 excluded. */
    method CollectRunNeighbours(rpw: ParticleWrapper, grouped: seq<seq<Coord>>, k: nat, y: int, run: seq<int>)
      requires rpw.grid == grid && rpw.Valid() && rpw.Empty()
      requires k < |grouped| && 0 <= y < grid.Length0
      requires forall t :: 0 <= t < |run| ==> 0 <= run[t] < grid.Length1
      modifies rpw
      ensures rpw.Valid()
      ensures rpw.neighbours == RunNeighbours(grouped, k, y, run, grid.Length0, grid.Length1)
    {
      rpw.AddVisitedAll(RowCells(run, y));
      if k >= 1 {
        rpw.AddExcludedAll(grouped[k - 1]);
      }
      if k + 1 < |grouped| {
        rpw.AddExcludedAll(grouped[k + 1]);
      }
      assert rpw.excluded == ExcludedRows(grouped, k);
      rpw.AddNeighbour();
    }

    /** The neighbours of a narrow run, less the rows above and below, and their major one. */
    method RunMajor(rpw: ParticleWrapper, grouped: seq<seq<Coord>>, k: nat, y: int, run: seq<int>, ghost g: seq<seq<Pixel>>)
      returns (neighbour: Option<Coord>, count: nat)
      requires rpw.grid == grid && rpw.Valid() && rpw.Empty() && g == Contents(grid)
      requires k < |grouped| && 0 <= y < grid.Length0
      requires forall t :: 0 <= t < |run| ==> 0 <= run[t] < grid.Length1
      modifies rpw
      ensures rpw.Valid()
      ensures IsMajor(g, RunNeighbours(grouped, k, y, run, grid.Length0, grid.Length1), neighbour, count)
      ensures count > 0 ==> neighbour.Some? && InRange(neighbour.value, grid.Length0, grid.Length1)
    {
      CollectRunNeighbours(rpw, grouped, k, y, run);
      var m := rpw.GetMajorNeighbour();
      neighbour, count := m.neighbour, m.count;
    }

    /**
     * The repaint every merge ends with: when there is a major neighbour and its colour
     * differs from the colour at c, the cells take that colour.
     */
    method RepaintWithMajor(cells: seq<Coord>, c: Coord, neighbour: Option<Coord>, count: nat, ghost g0: seq<seq<Pixel>>)
      returns (repainted: bool)
      requires g0 == Contents(grid)
      requires AllInRange(cells, grid.Length0, grid.Length1) && InRange(c, grid.Length0, grid.Length1)
      requires count > 0 ==> neighbour.Some? && InRange(neighbour.value, grid.Length0, grid.Length1)
      modifies grid
      ensures Repainted(g0, Contents(grid), cells, c, neighbour, count, repainted)
    {
      repainted := false;
      if count > 0 {
        var n := neighbour.value;
        if !SameColor(grid[n.y, n.x], grid[c.y, c.x]) {
          PaintWith(cells, n);
          repainted := true;
        }
      }
    }

    /** A narrow run takes the colour of its major neighbour when that differs from its own. */
    method RepaintRun(rpw: ParticleWrapper, grouped: seq<seq<Coord>>, k: nat, y: int, run: seq<int>) returns (repainted: bool)
      requires rpw.grid == grid && rpw.Valid() && rpw.Empty()
      requires k < |grouped| && 0 <= y < grid.Length0 && |run| > 0
      requires forall t :: 0 <= t < |run| ==> 0 <= run[t] < grid.Length1
      requires NarrowRun(Contents(grid), y, run, RoundSqrt(sizeLimit))
      modifies rpw, grid
      ensures rpw.Valid() && rpw.Empty()
      ensures Merge(Contents(grid), repainted) == RunResult(old(Contents(grid)), grouped, k, y, run, RoundSqrt(sizeLimit), grid.Length0, grid.Length1)
    {
      ghost var g0 := Contents(grid);
      var neighbour, count := RunMajor(rpw, grouped, k, y, run, g0);
      RowCellsInRange(run, y, grid.Length0, grid.Length1);
      repainted := RepaintWithMajor(RowCells(run, y), Coord(run[0], y), neighbour, count, g0);
      RunOutcome(g0, Contents(grid), grouped, k, y, run, RoundSqrt(sizeLimit), grid.Length0, grid.Length1, neighbour, count, repainted);
      rpw.Reset();
    }

    /** A group of one pixel: its neighbours with nothing excluded, and the repaint. */
    method MergeSingle(rpw: ParticleWrapper, grouped: seq<seq<Coord>>, k: nat) returns (repainted: bool)
      requires rpw.grid == grid && rpw.Valid() && rpw.Empty()
      requires k < |grouped| && |grouped[k]| == 1 && InRange(grouped[k][0], grid.Length0, grid.Length1)
      modifies rpw, grid
      ensures rpw.Valid() && rpw.Empty()
      ensures Merge(Contents(grid), repainted) == SingleResult(old(Contents(grid)), grouped[k][0], grid.Length0, grid.Length1)
    {
      ghost var g0 := Contents(grid);
      var group := grouped[k];
      assert group == [group[0]];
      rpw.AddVisited(group[0]);
      rpw.AddNeighbour();
      var m := rpw.GetMajorNeighbour();
      repainted := RepaintWithMajor(group, group[0], m.neighbour, m.count, g0);
      SingleOutcome(g0, Contents(grid), group[0], grid.Length0, grid.Length1, m.neighbour, m.count, repainted);
      rpw.Reset();
    }

    /** A run closed by the scan goes to ProcessRun; the row fold grows by that run. */
    method CloseRun(rpw: ParticleWrapper, grouped: seq<seq<Coord>>, k: nat, y: int, run: seq<int>,
                    ghost closed: seq<seq<int>>, ghost g0: seq<seq<Pixel>>, modified0: bool) returns (modified: bool)
      requires rpw.grid == grid && rpw.Valid() && rpw.Empty()
      requires k < |grouped| && 0 <= y < grid.Length0 && IsGrid(g0, grid.Length0, grid.Length1)
      requires |run| > 0 && forall t :: 0 <= t < |run| ==> 0 <= run[t] < grid.Length1
      requires RunsIn(closed, grid.Length1)
      requires Merge(Contents(grid), modified0) == RunsResult(g0, grouped, k, y, closed, RoundSqrt(sizeLimit), grid.Length0, grid.Length1)
      modifies rpw, grid
      ensures rpw.Valid() && rpw.Empty()
      ensures RunsIn(closed + [run], grid.Length1)
      ensures Merge(Contents(grid), modified)
        == RunsResult(g0, grouped, k, y, closed + [run], RoundSqrt(sizeLimit), grid.Length0, grid.Length1)
    {
      RunsResultAppend(g0, grouped, k, y, closed, run, RoundSqrt(sizeLimit), grid.Length0, grid.Length1);
      var r := ProcessRun(rpw, grouped, k, y, run);
      modified := modified0 || r;
    }

    /**
     * A group of two or more pixels: the scan that gathers contiguous xs and hands each
     * closed run to ProcessRun; it hands on exactly ScannedRuns of the group's xs.
     */
    method MergeRow(rpw: ParticleWrapper, grouped: seq<seq<Coord>>, k: nat) returns (repainted: bool)
      requires rpw.grid == grid && rpw.Valid() && rpw.Empty()
      requires k < |grouped| && |grouped[k]| >= 2 && RowGroup(grouped[k], grid.Length0, grid.Length1)
      modifies rpw, grid
      ensures rpw.Valid() && rpw.Empty()
      ensures RunsIn(ScannedRuns(Xs(grouped[k])), grid.Length1)
      ensures Merge(Contents(grid), repainted)
        == RunsResult(old(Contents(grid)), grouped, k, grouped[k][0].y, ScannedRuns(Xs(grouped[k])), RoundSqrt(sizeLimit), grid.Length0, grid.Length1)
    {
      var h := grid.Length0;
      var w := grid.Length1;
      ghost var g0 := Contents(grid);
      ghost var limit := RoundSqrt(sizeLimit);
      var group := grouped[k];
      ghost var xs := Xs(group);
      var y := group[0].y;
      var prevX := group[0].x;
      var currX := if |group| > 1 then group[1].x else -1;
      var contiguous := [prevX];
      ghost var closed: seq<seq<int>> := [];
      repainted := false;
      RowScanStart(group, h, w);
      for i := 1 to |group|
        invariant rpw.Valid() && rpw.Empty()
        invariant RowScan(xs, w, i, prevX, currX, contiguous, closed)
        invariant Merge(Contents(grid), repainted) == RunsResult(g0, grouped, k, y, closed, limit, h, w)
      {
        RowScanStep(group, h, w, i, prevX, currX, contiguous, closed);
        if currX - prevX == 1 {
          contiguous := contiguous + [currX];
        }
        if currX - prevX > 1 || i == |group| - 1 {
          repainted := CloseRun(rpw, grouped, k, y, contiguous, closed, g0, repainted);
          closed := closed + [contiguous];
          contiguous := [currX];
        }
        prevX := currX;
        currX := if i < |group| - 1 then group[i + 1].x else -1;
      }
    }

    /**
     * mergeNarrowPart: every group in order, the runs of a longer group or the single
     * pixel; modified when anything was repainted.
     */
    method MergeNarrowPart(rpw: ParticleWrapper, grouped: seq<seq<Coord>>) returns (modified: bool)
      requires rpw.grid == grid && rpw.Valid() && rpw.Empty()
      requires RowGroups(grouped, grid.Length0, grid.Length1)
      modifies rpw, grid
      ensures rpw.Valid() && rpw.Empty()
      ensures Merge(Contents(grid), modified)
        == MergeResult(old(Contents(grid)), grouped, |grouped|, RoundSqrt(sizeLimit), grid.Length0, grid.Length1)
    {
      ghost var g0 := Contents(grid);
      modified := false;
      for k := 0 to |grouped|
        invariant rpw.Valid() && rpw.Empty()
        invariant Merge(Contents(grid), modified) == MergeResult(g0, grouped, k, RoundSqrt(sizeLimit), grid.Length0, grid.Length1)
      {
        assert RowGroup(grouped[k], grid.Length0, grid.Length1);
        var r;
        if |grouped[k]| > 1 {
          r := MergeRow(rpw, grouped, k);
        } else {
          r := MergeSingle(rpw, grouped, k);
        }
        modified := modified || r;
      }
    }

    /**
     * removeExceedingRow: a pixel that differs from both vertical or both horizontal
     * neighbours takes the colour of the major neighbour among its differing 4-neighbours.
     */
    method RemoveExceedingRow(x: int, y: int)
      requires InRange(Coord(x, y), grid.Length0, grid.Length1)
      modifies grid
      ensures Contents(grid) == ExceedAt(old(Contents(grid)), x, y, grid.Length0, grid.Length1)
    {
      var h := grid.Length0;
      var w := grid.Length1;
      ghost var g0 := Contents(grid);
      var c := grid[y, x];
      var spur := IsSpur(x, y);
      if spur {
        var nbrs := DifferingNeighboursOf(x, y);
        var neighbour, count := GetMajorNeighbour(nbrs);
        ExceedAtIs(g0, x, y, h, w, neighbour, count);
        if count > 0 {
          var n := neighbour.value;
          if !SameColor(grid[n.y, n.x], c) {
            Write(grid, y, x, grid[n.y, n.x]);
          }
        }
      }
    }

    /** The test of removeExceedingRow: the pixel differs from both vertical or both horizontal neighbours. */
    method IsSpur(x: int, y: int) returns (spur: bool)
      requires InRange(Coord(x, y), grid.Length0, grid.Length1)
      ensures spur == Exceeds(Contents(grid), x, y)
    {
      var c := grid[y, x];
      var vertical := y - 1 >= 0 && y + 1 < grid.Length0 && !SameColor(grid[y - 1, x], c) && !SameColor(grid[y + 1, x], c);
      var horizontal := x - 1 >= 0 && x + 1 < grid.Length1 && !SameColor(grid[y, x - 1], c) && !SameColor(grid[y, x + 1], c);
      spur := vertical || horizontal;
    }

    /** The neighbour set of removeExceedingRow: the 4-neighbours of another colour, top, bottom, left, right. */
    method DifferingNeighboursOf(x: int, y: int) returns (nbrs: seq<Coord>)
      requires InRange(Coord(x, y), grid.Length0, grid.Length1)
      ensures nbrs == DifferingNeighbours(Contents(grid), x, y)
    {
      ghost var g := Contents(grid);
      var c := grid[y, x];
      var top := y - 1 >= 0 && !SameColor(grid[y - 1, x], c);
      var bottom := y + 1 < grid.Length0 && !SameColor(grid[y + 1, x], c);
      var left := x - 1 >= 0 && !SameColor(grid[y, x - 1], c);
      var right := x + 1 < grid.Length1 && !SameColor(grid[y, x + 1], c);
      DifferingNeighboursParts(g, x, y, top, bottom, left, right);
      hide DifferingNeighbours, Contents;
      nbrs := [];
      if top {
        nbrs := nbrs + [Coord(x, y - 1)];
      }
      ghost var n1 := nbrs;
      if bottom {
        nbrs := nbrs + [Coord(x, y + 1)];
      }
      ghost var n2 := nbrs;
      if left {
        nbrs := nbrs + [Coord(x - 1, y)];
      }
      ghost var n3 := nbrs;
      if right {
        nbrs := nbrs + [Coord(x + 1, y)];
      }
      FourPushes(x, y, top, bottom, left, right, n1, n2, n3, nbrs);
    }

    /** removalProcess(1): removeExceedingRow at every pixel, row by row, left to right. */
    method RemoveExceedingRows()
      requires grid.Length0 > 0
      modifies grid
      ensures Contents(grid) == ExceedRows(old(Contents(grid)), grid.Length0, grid.Length0, grid.Length1)
    {
      var h := grid.Length0;
      var w := grid.Length1;
      ghost var g0 := Contents(grid);
      for i := 0 to h
        invariant Contents(grid) == ExceedRows(g0, i, h, w)
      {
        for j := 0 to w
          invariant Contents(grid) == ExceedCols(ExceedRows(g0, i, h, w), i, j, h, w)
        {
          RemoveExceedingRow(j, i);
        }
      }
    }

    /**
     * One pass of the retry loop of removalProcess(0) at (j, i): the flood fill from the
     * pixel with its current colour, then the small-particle repaint or, for a particle
     * that reached SIZE_LIMIT, the narrow-run merge of its rows. PassOutcome states the
     * new grid and the new sets of the particle wrapper.
     */
    method RemovalPass(pw: ParticleWrapper, rpw: ParticleWrapper, i: int, j: int) returns (modified: bool)
      requires pw.grid == grid && rpw.grid == grid && pw != rpw
      requires pw.Valid() && rpw.Valid() && rpw.Empty()
      requires InRange(Coord(j, i), grid.Length0, grid.Length1)
      modifies pw, rpw, grid
      ensures pw.Valid() && rpw.Valid() && rpw.Empty()
      ensures pw.excluded == old(pw.excluded)
      ensures PassOutcome(old(Contents(grid)), Contents(grid), modified, old(pw.visited), old(pw.neighbours), old(pw.excluded),
                          pw.visited, pw.neighbours, Coord(j, i), sizeLimit, grid.Length0, grid.Length1)
      ensures PaletteOf(Contents(grid)) <= PaletteOf(old(Contents(grid)))
    {
      ghost var g0 := Contents(grid);
      DetectParticle(pw, j, i, grid[i, j]);
      if |pw.visited| < sizeLimit {
        modified := RepaintSmall(pw, i, j);
        SmallPalette(g0, pw.visited, pw.neighbours, Coord(j, i), grid.Length0, grid.Length1);
      } else {
        var grouped := pw.GroupPixelsByRow();
        GroupRowsAreRowGroups(pw.visited, grid.Length0, grid.Length1);
        modified := MergeNarrowPart(rpw, grouped);
        MergePalette(g0, grouped, |grouped|, RoundSqrt(sizeLimit), grid.Length0, grid.Length1);
      }
    }

    /**
     * The retry loop of removalProcess(0) for the pixel (j, i). Pass k takes the grid from
     * grids[k] to grids[k + 1] as PassOutcome says, with flags[k] its modified flag; the
     * first pass starts from the wrapper's sets as they were, later ones from reset sets.
     * Passes repeat while they modify the grid, at most MAX_REMOVALS + 1 times; after the
     * last allowed pass the loop breaks before reset(), so the particle wrapper keeps the
     * sets of that pass for the next pixel.
     */
    method RemoveParticleAt(pw: ParticleWrapper, rpw: ParticleWrapper, i: int, j: int)
      returns (passes: nat, ghost flags: seq<bool>, ghost grids: seq<seq<seq<Pixel>>>,
               ghost visits: seq<seq<Coord>>, ghost nbs: seq<seq<Coord>>)
      requires pw.grid == grid && rpw.grid == grid && pw != rpw
      requires pw.Valid() && rpw.Valid() && rpw.Empty()
      requires InRange(Coord(j, i), grid.Length0, grid.Length1)
      modifies pw, rpw, grid
      ensures pw.Valid() && rpw.Valid() && rpw.Empty()
      ensures 1 <= passes <= MAX_REMOVALS + 1 && |flags| == passes && |visits| == passes && |nbs| == passes
      ensures |grids| == passes + 1 && grids[0] == old(Contents(grid)) && grids[passes] == Contents(grid)
      ensures forall k :: 0 <= k < passes ==>
        PassOutcome(grids[k], grids[k + 1], flags[k],
                    if k == 0 then old(pw.visited) else [], if k == 0 then old(pw.neighbours) else [],
                    if k == 0 then old(pw.excluded) else [],
                    visits[k], nbs[k], Coord(j, i), sizeLimit, grid.Length0, grid.Length1)
      ensures forall k :: 0 <= k < passes - 1 ==> flags[k]
      ensures passes <= MAX_REMOVALS ==> !flags[passes - 1] && pw.Empty()
      ensures passes == MAX_REMOVALS + 1 ==>
        pw.visited == visits[passes - 1] && pw.neighbours == nbs[passes - 1] && pw.excluded == []
        && pw.visited != [] && pw.visited[0] == Coord(j, i)
      ensures PaletteOf(Contents(grid)) <= PaletteOf(old(Contents(grid)))
    {
      hide Contents, PaletteOf, PassOutcome;
      ghost var v0, n0, e0 := pw.visited, pw.neighbours, pw.excluded;
      passes := 0;
      flags, grids, visits, nbs := [], [Contents(grid)], [], [];
      while true
        invariant pw.Valid() && rpw.Valid() && rpw.Empty()
        invariant passes <= MAX_REMOVALS && |flags| == passes && |visits| == passes && |nbs| == passes
        invariant |grids| == passes + 1 && grids[0] == old(Contents(grid)) && grids[passes] == Contents(grid)
        invariant forall k :: 0 <= k < passes ==> flags[k]
        invariant passes == 0 ==> pw.visited == v0 && pw.neighbours == n0 && pw.excluded == e0
        invariant passes > 0 ==> pw.Empty()
        invariant forall k :: 0 <= k < passes ==>
          PassOutcome(grids[k], grids[k + 1], flags[k],
                      if k == 0 then v0 else [], if k == 0 then n0 else [], if k == 0 then e0 else [],
                      visits[k], nbs[k], Coord(j, i), sizeLimit, grid.Length0, grid.Length1)
        invariant PaletteOf(Contents(grid)) <= PaletteOf(old(Contents(grid)))
        decreases MAX_REMOVALS - passes
      {
        var modified := RemovalPass(pw, rpw, i, j);
        passes := passes + 1;
        flags := flags + [modified];
        grids := grids + [Contents(grid)];
        visits := visits + [pw.visited];
        nbs := nbs + [pw.neighbours];
        if passes > MAX_REMOVALS {
          PassFromEmpty(grids[passes - 1], grids[passes], modified, pw.visited, pw.neighbours, Coord(j, i),
                        sizeLimit, grid.Length0, grid.Length1);
          return;
        }
        pw.Reset();
        if !modified {
          return;
        }
      }
    }

    /**
     * removalProcess(0): the retry loop at every pixel, row by row, left to right, with
     * the particle wrapper shared by all pixels (built without SIZE_LIMIT) and a second
     * wrapper for the rows. No colour is ever introduced.
     */
    method RemoveParticles()
      requires grid.Length0 > 0
      modifies grid
      ensures PaletteOf(Contents(grid)) <= PaletteOf(old(Contents(grid)))
    {
      var h := grid.Length0;
      var w := grid.Length1;
      var pw := new ParticleWrapper(grid, None);
      var rpw := new ParticleWrapper(grid, Some(sizeLimit));
      for i := 0 to h
        invariant pw.grid == grid && rpw.grid == grid && pw.Valid() && rpw.Valid() && rpw.Empty()
        invariant fresh(pw) && fresh(rpw)
        invariant PaletteOf(Contents(grid)) <= PaletteOf(old(Contents(grid)))
      {
        for j := 0 to w
          invariant pw.grid == grid && rpw.grid == grid && pw.Valid() && rpw.Valid() && rpw.Empty()
          invariant fresh(pw) && fresh(rpw)
          invariant PaletteOf(Contents(grid)) <= PaletteOf(old(Contents(grid)))
        {
          var passes, flags, grids, visits, nbs := RemoveParticleAt(pw, rpw, i, j);
        }
      }
    }
  }
}
