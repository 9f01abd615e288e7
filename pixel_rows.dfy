/**
 * Grouping pixel coordinates by row. src/particleRemoval.js:85-112 and
 * src/regionLabeling.js:17-40 hold the same code: stably sort by y, append a
 * [-1, -1] sentinel, cut the sequence wherever y changes, sort every cut by x.
 */
module PixelRows {
  import opened Helper
  import opened Sorting

  function Y(c: Coord): int { c.y }
  function X(c: Coord): int { c.x }

  /** All coordinates lie at non-negative rows, as grid coordinates do. */
  predicate OnGrid(s: seq<Coord>)
  {
    forall k :: 0 <= k < |s| ==> s[k].y >= 0
  }

  /** s cut into maximal runs of equal y, in order. */
  function Runs(s: seq<Coord>): (r: seq<seq<Coord>>)
    ensures s == [] <==> r == []
  {
    if s == [] then [] else Extend(Runs(s[..|s| - 1]), s[|s| - 1])
  }

  /** c joins the last run when it has that run's y, and opens a new run otherwise. */
  function Extend(r0: seq<seq<Coord>>, c: Coord): (r: seq<seq<Coord>>)
    ensures r != []
  {
    if r0 != [] && Last(r0) != [] && Last(Last(r0)).y == c.y then r0[..|r0| - 1] + [Last(r0) + [c]]
    else r0 + [[c]]
  }

  function Last<T>(s: seq<T>): T
    requires |s| > 0
  {
    s[|s| - 1]
  }

  /** Every run sorted by x. */
  function SortEach(rs: seq<seq<Coord>>): (r: seq<seq<Coord>>)
    ensures |r| == |rs|
  {
    seq(|rs|, k requires 0 <= k < |rs| => SortBy(rs[k], X))
  }

  /** What groupPixelsByRow returns for pixels. */
  function GroupRows(pixels: seq<Coord>): seq<seq<Coord>>
  {
    SortEach(Runs(SortBy(pixels, Y)))
  }

  /** All runs but the last, each sorted by x: the groups already pushed. */
  function Closed(rs: seq<seq<Coord>>): seq<seq<Coord>>
    requires rs != []
  {
    SortEach(rs[..|rs| - 1])
  }

  /** groupPixelsByRow: sort by y, then the sentinel-terminated scan that cuts the rows. */
  method GroupPixelsByRow(pixels: seq<Coord>) returns (groupedPixels: seq<seq<Coord>>)
    requires OnGrid(pixels)
    ensures groupedPixels == GroupRows(pixels)
  {
    var sorted := SortBy(pixels, Y);
    SortedOnGrid(pixels);
    var pixelsArr := sorted + [Coord(-1, -1)];
    groupedPixels := [];
    var group := [pixelsArr[0]];
    for i := 1 to |pixelsArr|
      invariant |sorted| > 0 && i <= |sorted| ==> Runs(sorted[..i]) != [] && groupedPixels == Closed(Runs(sorted[..i]))
      invariant |sorted| > 0 && i <= |sorted| ==> group == Last(Runs(sorted[..i]))
      invariant |sorted| > 0 && i == |sorted| + 1 ==> groupedPixels == GroupRows(pixels)
      invariant |sorted| == 0 ==> groupedPixels == []
    {
      if pixelsArr[i].y == pixelsArr[i - 1].y {
        assert i < |sorted|;
        RunsStep(sorted, i);
        ExtendSame(Runs(sorted[..i]), pixelsArr[i]);
        group := group + [pixelsArr[i]];
      } else {
        ghost var r := Runs(sorted[..i]);
        group := SortBy(group, X);
        SortEachAppend(r[..|r| - 1], Last(r));
        assert r[..|r| - 1] + [Last(r)] == r;
        groupedPixels := groupedPixels + [group];
        if i < |sorted| {
          RunsStep(sorted, i);
          ExtendNew(r, pixelsArr[i]);
        } else {
          assert sorted[..i] == sorted;
        }
        group := [pixelsArr[i]];
      }
    }
  }

  lemma SortedOnGrid(pixels: seq<Coord>)
    requires OnGrid(pixels)
    ensures OnGrid(SortBy(pixels, Y))
  {
    var sorted := SortBy(pixels, Y);
    SortByPermutation(pixels, Y);
    forall k | 0 <= k < |sorted|
      ensures sorted[k].y >= 0
    {
      assert sorted[k] in multiset(pixels);
    }
  }

  /** One more element: the runs of s[..i+1] extend those of s[..i] by s[i]. */
  lemma RunsStep(s: seq<Coord>, i: nat)
    requires 0 < i < |s|
    ensures Runs(s[..i + 1]) == Extend(Runs(s[..i]), s[i])
    ensures Last(Last(Runs(s[..i]))) == s[i - 1]
  {
    assert s[..i + 1][..i] == s[..i];
    RunsLast(s[..i]);
  }

  /** The last run ends with the last element. */
  lemma RunsLast(s: seq<Coord>)
    requires |s| > 0
    ensures Runs(s) != [] && Last(Runs(s)) != [] && Last(Last(Runs(s))) == Last(s)
  {
  }

  lemma ExtendSame(r0: seq<seq<Coord>>, c: Coord)
    requires r0 != [] && Last(r0) != [] && Last(Last(r0)).y == c.y
    ensures Extend(r0, c) != [] && Closed(Extend(r0, c)) == Closed(r0) && Last(Extend(r0, c)) == Last(r0) + [c]
  {
    var r := Extend(r0, c);
    assert r[..|r| - 1] == r0[..|r0| - 1];
  }

  lemma ExtendNew(r0: seq<seq<Coord>>, c: Coord)
    requires r0 != [] && Last(r0) != [] && Last(Last(r0)).y != c.y
    ensures Extend(r0, c) != [] && Closed(Extend(r0, c)) == SortEach(r0) && Last(Extend(r0, c)) == [c]
  {
    var r := Extend(r0, c);
    assert r[..|r| - 1] == r0;
  }

  lemma SortEachAppend(rs: seq<seq<Coord>>, x: seq<Coord>)
    ensures SortEach(rs + [x]) == SortEach(rs) + [SortBy(x, X)]
  {
  }

  // ---------------------------------------------------------------------------
  // What the grouping promises
  // ---------------------------------------------------------------------------

  function Concat(rs: seq<seq<Coord>>): seq<Coord>
  {
    if rs == [] then [] else Concat(rs[..|rs| - 1]) + Last(rs)
  }

  lemma ConcatAppend(rs: seq<seq<Coord>>, x: seq<Coord>)
    ensures Concat(rs + [x]) == Concat(rs) + x
  {
    assert (rs + [x])[..|rs|] == rs;
  }

  lemma ConcatExtend(r0: seq<seq<Coord>>, c: Coord)
    ensures Concat(Extend(r0, c)) == Concat(r0) + [c]
  {
    if r0 != [] && Last(r0) != [] && Last(Last(r0)).y == c.y {
      var front := r0[..|r0| - 1];
      assert r0 == front + [Last(r0)];
      ConcatAppend(front, Last(r0) + [c]);
      ConcatAppend(front, Last(r0));
    } else {
      ConcatAppend(r0, [c]);
    }
  }

  lemma {:induction false} ConcatRuns(s: seq<Coord>)
    ensures Concat(Runs(s)) == s
  {
    if s != [] {
      var s0 := s[..|s| - 1];
      assert Runs(s) == Extend(Runs(s0), s[|s| - 1]);
      hide Runs, Extend, Concat;
      ConcatRuns(s0);
      ConcatExtend(Runs(s0), s[|s| - 1]);
      assert s == s0 + [s[|s| - 1]];
    }
  }

  lemma {:induction false} ConcatSortEach(rs: seq<seq<Coord>>)
    ensures multiset(Concat(SortEach(rs))) == multiset(Concat(rs))
  {
    if rs != [] {
      var n := |rs| - 1;
      assert rs == rs[..n] + [rs[n]];
      SortEachAppend(rs[..n], rs[n]);
      ConcatAppend(SortEach(rs[..n]), SortBy(rs[n], X));
      ConcatAppend(rs[..n], rs[n]);
      ConcatSortEach(rs[..n]);
      SortByPermutation(rs[n], X);
    }
  }

  /** Every run holds one row, and the rows of consecutive runs differ; on sorted input they increase. */
  predicate RowsIncreasing(rs: seq<seq<Coord>>)
  {
    && (forall k :: 0 <= k < |rs| ==> |rs[k]| > 0)
    && (forall k, t :: 0 <= k < |rs| && 0 <= t < |rs[k]| ==> rs[k][t].y == rs[k][0].y)
    && (forall k, l :: 0 <= k < l < |rs| ==> rs[k][0].y < rs[l][0].y)
  }

  lemma ExtendIncreasing(r0: seq<seq<Coord>>, c: Coord)
    requires RowsIncreasing(r0)
    requires r0 != [] ==> Last(r0)[0].y <= c.y
    ensures RowsIncreasing(Extend(r0, c)) && Last(Extend(r0, c))[0].y == c.y
  {
    var r: seq<seq<Coord>> := Extend(r0, c);
    if r0 != [] && Last(r0) != [] && Last(Last(r0)).y == c.y {
      assert r == r0[..|r0| - 1] + [Last(r0) + [c]];
      forall k, t | 0 <= k < |r| && 0 <= t < |r[k]|
        ensures r[k][t].y == r[k][0].y
      {
        if k < |r0| - 1 {
          assert r[k] == r0[k];
        }
      }
      forall k, l | 0 <= k < l < |r|
        ensures r[k][0].y < r[l][0].y
      {
        assert r[k][0] == r0[k][0] && r[l][0] == r0[l][0];
      }
    } else {
      assert r == r0 + [[c]];
      if r0 != [] {
        assert Last(Last(r0)).y == Last(r0)[0].y;
      }
      forall k, l | 0 <= k < l < |r|
        ensures r[k][0].y < r[l][0].y
      {
        if l < |r0| {
          assert r[k] == r0[k] && r[l] == r0[l];
        } else {
          assert r[k] == r0[k];
          assert r0[k][0].y <= Last(r0)[0].y;
        }
      }
    }
  }

  lemma {:induction false} RunsIncreasing(s: seq<Coord>)
    requires SortedBy(s, Y)
    ensures RowsIncreasing(Runs(s))
    ensures s != [] ==> Last(Runs(s))[0].y == Last(s).y
  {
    if s != [] {
      var s0 := s[..|s| - 1];
      assert SortedBy(s0, Y);
      RunsIncreasing(s0);
      if s0 != [] {
        assert Last(s0) == s[|s| - 2];
      }
      ExtendIncreasing(Runs(s0), s[|s| - 1]);
    }
  }

  /** Sorting a run by x keeps its one row. */
  lemma SortEachRows(rs: seq<seq<Coord>>)
    requires RowsIncreasing(rs)
    ensures RowsIncreasing(SortEach(rs))
    ensures forall k :: 0 <= k < |rs| ==> SortedBy(SortEach(rs)[k], X)
  {
    var ss := SortEach(rs);
    forall k | 0 <= k < |rs|
      ensures |ss[k]| > 0 && SortedBy(ss[k], X)
      ensures forall t :: 0 <= t < |ss[k]| ==> ss[k][t].y == rs[k][0].y
    {
      SortBySorted(rs[k], X);
      SortByPermutation(rs[k], X);
      forall t | 0 <= t < |ss[k]|
        ensures ss[k][t].y == rs[k][0].y
      {
        assert ss[k][t] in multiset(rs[k]);
      }
    }
  }

  /**
   * groupPixelsByRow returns a permutation of its input cut into rows: each group a
   * single y, the groups in strictly increasing y, x non-decreasing inside a group,
   * and nothing for no input.
   */
  lemma GroupRowsSpec(pixels: seq<Coord>)
    ensures multiset(Concat(GroupRows(pixels))) == multiset(pixels)
    ensures RowsIncreasing(GroupRows(pixels))
    ensures forall k :: 0 <= k < |GroupRows(pixels)| ==> SortedBy(GroupRows(pixels)[k], X)
    ensures GroupRows(pixels) == [] <==> pixels == []
  {
    var sorted := SortBy(pixels, Y);
    SortByPermutation(pixels, Y);
    SortBySorted(pixels, Y);
    ConcatRuns(sorted);
    ConcatSortEach(Runs(sorted));
    RunsIncreasing(sorted);
    SortEachRows(Runs(sorted));
  }
}
