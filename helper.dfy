/**
 * The pixel-grid substrate (src/helper.js): RGBA pixels, the conversions between a
 * flat row-major RGBA buffer and a height x width grid, and the array helpers
 * isEqualArr, indexOfArr and getDistance.
 *
 * A pixel of the source is a 4-element array that no stage ever mutates channel
 * by channel, so it is modelled as a value.
 */
module Helper {
  import opened Constants

  datatype Option<T> = None | Some(value: T)

  /** An RGBA pixel; the channels are unbounded integers. */
  datatype Pixel = Pixel(r: int, g: int, b: int, a: int)

  /** A pixel coordinate [x, y]: x is the column, y the row. */
  datatype Coord = Coord(x: int, y: int)

  /** BACKGROUND_COLOR = [0, 0, 0, 255]. */
  const BACKGROUND_COLOR: Pixel := Pixel(BACKGROUND_R, BACKGROUND_G, BACKGROUND_B, BACKGROUND_A)

  /** The pixel as the 4-element array the source works with. */
  function Channels(p: Pixel): (s: seq<int>)
    ensures |s| == 4
  {
    [p.r, p.g, p.b, p.a]
  }

  /** Squared length of the RGB part, the sort key of the filter and of the neighbour scans. */
  function SumSquares(p: Pixel): int
  {
    p.r * p.r + p.g * p.g + p.b * p.b
  }

  lemma SumSquaresNonNegative(p: Pixel)
    ensures SumSquares(p) >= 0
  {
    assert p.r * p.r >= 0 && p.g * p.g >= 0 && p.b * p.b >= 0;
  }

  // ---------------------------------------------------------------------------
  // isEqualArr
  // ---------------------------------------------------------------------------

  /**
   * What isEqualArr(a1, a2) computes: it walks the indices of a1 only, and an index
   * that a2 lacks reads `undefined`, which differs from every element.
   */
  predicate PrefixEqual<T(==)>(a1: seq<T>, a2: seq<T>)
  {
    |a1| <= |a2| && forall i :: 0 <= i < |a1| ==> a1[i] == a2[i]
  }

  /** isEqualArr: the early-return loop over the indices of a1. */
  method IsEqualArr<T(==)>(a1: seq<T>, a2: seq<T>) returns (r: bool)
    ensures r == PrefixEqual(a1, a2)
  {
    var i := 0;
    while i < |a1|
      invariant 0 <= i <= |a1|
      invariant i <= |a2| || i == 0
      invariant forall k :: 0 <= k < i ==> a1[k] == a2[k]
    {
      if i >= |a2| || a1[i] != a2[i] {
        assert !PrefixEqual(a1, a2) by {
          if |a1| <= |a2| {
            assert a1[i] != a2[i];
          }
        }
        return false;
      }
      i := i + 1;
    }
    assert PrefixEqual(a1, a2);
    return true;
  }

  /** isEqualArr is a prefix test: true exactly when a1 is a prefix of a2. */
  lemma PrefixEqualIsPrefix<T>(a1: seq<T>, a2: seq<T>)
    ensures PrefixEqual(a1, a2) <==> (|a1| <= |a2| && a1 == a2[..|a1|])
  {
  }

  /** isEqualArr is reflexive and, on arrays of equal length, it is equality. */
  lemma PrefixEqualSameLength<T>(a1: seq<T>, a2: seq<T>)
    ensures PrefixEqual(a1, a1)
    ensures |a1| == |a2| ==> (PrefixEqual(a1, a2) <==> a1 == a2)
  {
    PrefixEqualIsPrefix(a1, a2);
    assert a2[..|a2|] == a2;
  }

  /**
   * isEqualArr on two pixels. Both arrays have four channels, so the prefix test is
   * plain equality (SameColorIsEqualArr); the model states it as such.
   */
  predicate SameColor(p: Pixel, q: Pixel)
  {
    p == q
  }

  /** isEqualArr(p, q) on the channel arrays of two pixels is SameColor(p, q). */
  lemma SameColorIsEqualArr(p: Pixel, q: Pixel)
    ensures PrefixEqual(Channels(p), Channels(q)) <==> SameColor(p, q)
  {
    PrefixEqualSameLength(Channels(p), Channels(q));
    if Channels(p) == Channels(q) {
      assert Channels(p)[0] == Channels(q)[0] && Channels(p)[1] == Channels(q)[1];
      assert Channels(p)[2] == Channels(q)[2] && Channels(p)[3] == Channels(q)[3];
    }
  }

  // ---------------------------------------------------------------------------
  // indexOfArr
  // ---------------------------------------------------------------------------

  /** The first index whose first two components match those of target, or -1. */
  function FirstMatch(arr: seq<seq<int>>, target: seq<int>): (r: int)
    requires |target| >= 2
    requires forall i :: 0 <= i < |arr| ==> |arr[i]| >= 2
    ensures -1 <= r < |arr|
  {
    if arr == [] then -1
    else if arr[0][0] == target[0] && arr[0][1] == target[1] then 0
    else
      var k := FirstMatch(arr[1..], target);
      if k == -1 then -1 else k + 1
  }

  /** FirstMatch returns -1 exactly when nothing matches, and otherwise the first match. */
  lemma {:induction false} FirstMatchSpec(arr: seq<seq<int>>, target: seq<int>)
    requires |target| >= 2
    requires forall i :: 0 <= i < |arr| ==> |arr[i]| >= 2
    ensures var r := FirstMatch(arr, target);
      (r == -1 <==> forall i :: 0 <= i < |arr| ==> !(arr[i][0] == target[0] && arr[i][1] == target[1]))
      && (r >= 0 ==> arr[r][0] == target[0] && arr[r][1] == target[1])
      && (forall i :: 0 <= i < r ==> !(arr[i][0] == target[0] && arr[i][1] == target[1]))
  {
    if arr != [] && !(arr[0][0] == target[0] && arr[0][1] == target[1]) {
      FirstMatchSpec(arr[1..], target);
      var k := FirstMatch(arr[1..], target);
      forall i | 0 < i < |arr|
        ensures arr[i] == arr[1..][i - 1]
      {
      }
    }
  }

  /** indexOfArr: the early-return scan. */
  method IndexOfArr(arr: seq<seq<int>>, target: seq<int>) returns (r: int)
    requires |target| >= 2
    requires forall i :: 0 <= i < |arr| ==> |arr[i]| >= 2
    ensures r == FirstMatch(arr, target)
  {
    var i := 0;
    while i < |arr|
      invariant 0 <= i <= |arr|
      invariant FirstMatch(arr, target) == (var k := FirstMatch(arr[i..], target); if k == -1 then -1 else k + i)
    {
      assert arr[i..][1..] == arr[i + 1..];
      if arr[i][0] == target[0] && arr[i][1] == target[1] {
        return i;
      }
      i := i + 1;
    }
    return -1;
  }

  /** Math.round: the nearest integer, halves rounded up. */
  function Round(x: real): (r: int)
    ensures x - 0.5 < r as real <= x + 0.5
  {
    (x + 0.5).Floor
  }

  // ---------------------------------------------------------------------------
  // getDistance
  // ---------------------------------------------------------------------------

  /** Sum over the indices of p1 of the squared differences (the source's "Euclidean distance"). */
  function SqDist(p1: seq<real>, p2: seq<real>): real
    requires |p1| <= |p2|
  {
    if p1 == [] then 0.0
    else SqDist(p1[..|p1| - 1], p2) + (p1[|p1| - 1] - p2[|p1| - 1]) * (p1[|p1| - 1] - p2[|p1| - 1])
  }

  /** getDistance: the accumulating loop. */
  method GetDistance(p1: seq<real>, p2: seq<real>) returns (dist: real)
    requires |p1| <= |p2|
    ensures dist == SqDist(p1, p2)
  {
    dist := 0.0;
    var i := 0;
    while i < |p1|
      invariant 0 <= i <= |p1|
      invariant dist == SqDist(p1[..i], p2)
    {
      assert p1[..i + 1][..i] == p1[..i];
      dist := dist + (p1[i] - p2[i]) * (p1[i] - p2[i]);
      i := i + 1;
    }
    assert p1[..|p1|] == p1;
  }

  /** The distance is never negative, and it is zero between a vector and itself. */
  lemma {:induction false} SqDistNonNegative(p1: seq<real>, p2: seq<real>)
    requires |p1| <= |p2|
    ensures SqDist(p1, p2) >= 0.0
    ensures p1 == p2 ==> SqDist(p1, p2) == 0.0
  {
    if p1 != [] {
      SqDistNonNegative(p1[..|p1| - 1], p2);
      var d := p1[|p1| - 1] - p2[|p1| - 1];
      assert d * d >= 0.0;
      if p1 == p2 {
        SqDistPrefixSelf(p1[..|p1| - 1], p2);
      }
    }
  }

  lemma {:induction false} SqDistPrefixSelf(q: seq<real>, p: seq<real>)
    requires |q| <= |p| && q == p[..|q|]
    ensures SqDist(q, p) == 0.0
  {
    if q != [] {
      assert q[..|q| - 1] == p[..|q| - 1];
      SqDistPrefixSelf(q[..|q| - 1], p);
    }
  }

  /** The distance is symmetric between vectors of the same length. */
  lemma {:induction false} SqDistSymmetric(p1: seq<real>, p2: seq<real>)
    requires |p1| == |p2|
    ensures SqDist(p1, p2) == SqDist(p2, p1)
  {
    if p1 != [] {
      var n := |p1| - 1;
      SqDistSymmetricPrefix(p1[..n], p2[..n], p1, p2);
    }
  }

  lemma {:induction false} SqDistSymmetricPrefix(q1: seq<real>, q2: seq<real>, p1: seq<real>, p2: seq<real>)
    requires |q1| == |q2| <= |p1| == |p2|
    requires q1 == p1[..|q1|] && q2 == p2[..|q2|]
    ensures SqDist(q1, p2) == SqDist(q2, p1)
  {
    if q1 != [] {
      var n := |q1| - 1;
      assert q1[..n] == p1[..n] && q2[..n] == p2[..n];
      SqDistSymmetricPrefix(q1[..n], q2[..n], p1, p2);
      assert (q1[n] - p2[n]) * (q1[n] - p2[n]) == (q2[n] - p1[n]) * (q2[n] - p1[n]);
    }
  }

  // ---------------------------------------------------------------------------
  // flattenToDimensional / dimensionalToFlatten
  // ---------------------------------------------------------------------------

  /** The pixel whose four channels start at buf[idx]. */
  function PixelAt(buf: seq<int>, idx: nat): Pixel
    requires idx + 4 <= |buf|
  {
    Pixel(buf[idx], buf[idx + 1], buf[idx + 2], buf[idx + 3])
  }

  lemma CellIndexBound(i: nat, j: nat, w: nat, h: nat)
    requires i < h && j < w
    ensures i * w + j < h * w
    ensures 4 * (i * w + j) + 4 <= 4 * (h * w)
  {
    assert (i + 1) * w <= h * w by {
      assert h * w - (i + 1) * w == (h - i - 1) * w;
    }
  }

  /** Every row of g has exactly w cells. */
  predicate Rectangular<T>(g: seq<seq<T>>, w: nat)
  {
    forall i :: 0 <= i < |g| ==> |g[i]| == w
  }

  /** The grid that flattenToDimensional builds: h rows of w pixels, row-major out of buf. */
  function Dimensional(buf: seq<int>, w: nat, h: nat): (g: seq<seq<Pixel>>)
    requires 4 * (h * w) <= |buf|
    ensures |g| == h && Rectangular(g, w)
  {
    seq(h, (i: int) requires 0 <= i < h =>
      seq(w, (j: int) requires 0 <= j < w =>
        CellIndexBound(i, j, w, h); PixelAt(buf, 4 * (i * w + j))))
  }

  /** Pixel (i, j), channel k of Dimensional(buf, w, h) is buf[4*(i*w+j)+k]. */
  lemma DimensionalAt(buf: seq<int>, w: nat, h: nat, i: nat, j: nat, k: nat)
    requires 4 * (h * w) <= |buf|
    requires i < h && j < w && k < 4
    ensures 4 * (i * w + j) + k < |buf|
    ensures Channels(Dimensional(buf, w, h)[i][j])[k] == buf[4 * (i * w + j) + k]
  {
    CellIndexBound(i, j, w, h);
    assert Dimensional(buf, w, h)[i][j] == PixelAt(buf, 4 * (i * w + j));
  }

  /** flattenToDimensional: nested loops with a running buffer index. */
  method FlattenToDimensional(buf: seq<int>, w: nat, h: nat) returns (g: seq<seq<Pixel>>)
    requires 4 * (h * w) <= |buf|
    ensures g == Dimensional(buf, w, h)
  {
    g := [];
    var idx := 0;
    var i := 0;
    while i < h
      invariant 0 <= i <= h
      invariant idx == 4 * (i * w)
      invariant |g| == i
      invariant forall a :: 0 <= a < i ==> g[a] == Dimensional(buf, w, h)[a]
    {
      var row: seq<Pixel> := [];
      var j := 0;
      while j < w
        invariant 0 <= j <= w
        invariant idx == 4 * (i * w + j)
        invariant |row| == j
        invariant forall b :: 0 <= b < j ==> row[b] == Dimensional(buf, w, h)[i][b]
      {
        CellIndexBound(i, j, w, h);
        row := row + [PixelAt(buf, idx)];
        idx := idx + 4;
        j := j + 1;
      }
      g := g + [row];
      i := i + 1;
    }
  }

  /** The channels of a row, pixel after pixel. */
  function FlattenRow(row: seq<Pixel>): (s: seq<int>)
    ensures |s| == 4 * |row|
  {
    if row == [] then [] else FlattenRow(row[..|row| - 1]) + Channels(row[|row| - 1])
  }

  /** Flattening one more pixel appends its four channels. */
  lemma FlattenRowSnoc(px: seq<Pixel>, i: nat)
    requires i < |px|
    ensures FlattenRow(px[..i + 1]) == FlattenRow(px[..i]) + Channels(px[i])
  {
    assert px[..i + 1][..i] == px[..i];
  }

  lemma TakeSnoc<T>(s: seq<T>, k: nat)
    requires k < |s|
    ensures s[..k + 1] == s[..k] + [s[k]]
  {
  }

  lemma TakeAll<T>(s: seq<T>)
    ensures s[..|s|] == s
  {
  }

  /** The channels of a grid, row after row (the array dimensionalToFlatten returns). */
  function Flatten(g: seq<seq<Pixel>>): seq<int>
  {
    if g == [] then [] else Flatten(g[..|g| - 1]) + FlattenRow(g[|g| - 1])
  }

  lemma {:induction false} FlattenRowAt(row: seq<Pixel>, j: nat, k: nat)
    requires j < |row| && k < 4
    ensures FlattenRow(row)[4 * j + k] == Channels(row[j])[k]
  {
    var n := |row| - 1;
    if j < n {
      FlattenRowAt(row[..n], j, k);
    }
  }

  /** A grid of h rows of w pixels flattens to 4*h*w entries. */
  lemma {:induction false} FlattenLength(g: seq<seq<Pixel>>, w: nat)
    requires Rectangular(g, w)
    ensures |Flatten(g)| == 4 * (|g| * w)
  {
    if g != [] {
      var n := |g| - 1;
      FlattenLength(g[..n], w);
      MulSucc(|g|, n, w);
    }
  }

  /** dimensionalToFlatten is row-major: entry 4*(i*w+j)+k is channel k of pixel (i, j). */
  lemma {:induction false} FlattenAt(g: seq<seq<Pixel>>, w: nat, i: nat, j: nat, k: nat)
    requires Rectangular(g, w)
    requires i < |g| && j < w && k < 4
    ensures 4 * (i * w + j) + k < |Flatten(g)|
    ensures Flatten(g)[4 * (i * w + j) + k] == Channels(g[i][j])[k]
  {
    FlattenLength(g, w);
    CellIndexBound(i, j, w, |g|);
    var n := |g| - 1;
    FlattenLength(g[..n], w);
    if i < n {
      FlattenAt(g[..n], w, i, j, k);
    } else {
      assert 4 * (i * w + j) + k == 4 * (n * w) + (4 * j + k);
      FlattenRowAt(g[n], j, k);
    }
  }

  /** dimensionalToFlatten: three nested loops writing flattenedArr[idx++]. */
  method DimensionalToFlatten(g: seq<seq<Pixel>>) returns (flat: seq<int>)
    ensures flat == Flatten(g)
  {
    flat := [];
    assert Flatten(g[..0]) == [] by { assert g[..0] == []; }
    hide Flatten, FlattenRow;
    var i := 0;
    while i < |g|
      invariant 0 <= i <= |g|
      invariant flat == Flatten(g[..i])
    {
      FlattenSnoc(g, i);
      flat := AppendRow(flat, g[i]);
      i := i + 1;
    }
    TakeAll(g);
  }

  /** The two inner loops of dimensionalToFlatten: one row's channels, appended in order. */
  method AppendRow(flat: seq<int>, row: seq<Pixel>) returns (out: seq<int>)
    ensures out == flat + FlattenRow(row)
  {
    FlattenRowEmpty(row);
    hide FlattenRow;
    out := flat;
    var j := 0;
    while j < |row|
      invariant 0 <= j <= |row|
      invariant out == flat + FlattenRow(row[..j])
    {
      var ch := Channels(row[j]);
      ghost var base := out;
      var k := 0;
      while k < |ch|
        invariant 0 <= k <= |ch|
        invariant out == base + ch[..k]
      {
        out := out + [ch[k]];
        TakeSnoc(ch, k);
        k := k + 1;
      }
      TakeAll(ch);
      FlattenRowSnoc(row, j);
      j := j + 1;
    }
    TakeAll(row);
  }

  lemma FlattenRowEmpty(row: seq<Pixel>)
    ensures FlattenRow(row[..0]) == []
  {
    assert row[..0] == [];
  }

  /** Flattening one more row appends that row's channels. */
  lemma FlattenSnoc(g: seq<seq<Pixel>>, i: nat)
    requires i < |g|
    ensures Flatten(g[..i + 1]) == Flatten(g[..i]) + FlattenRow(g[i])
  {
    assert g[..i + 1][..i] == g[..i];
  }

  lemma MulSucc(a: nat, b: nat, w: nat)
    requires a == b + 1
    ensures a * w == b * w + w
  {
  }

  lemma MulLe(a: nat, b: nat, w: nat)
    requires a <= b
    ensures a * w <= b * w
  {
    assert b * w - a * w == (b - a) * w;
  }

  /** Splits a buffer position into its row, column and channel. */
  lemma CellOf(p: nat, w: nat, h: nat) returns (i: nat, j: nat, k: nat)
    requires p < 4 * (h * w)
    ensures i < h && j < w && k < 4
    ensures p == 4 * (i * w + j) + k
  {
    var cell := p / 4;
    k := p % 4;
    assert cell < h * w;
    assert w > 0;
    i := cell / w;
    j := cell % w;
    assert cell == i * w + j;
    if h <= i {
      MulLe(h, i, w);
      assert false;
    }
  }

  /** Round trip: flattening the grid built from a well-sized buffer gives the buffer back. */
  lemma RoundTrip(buf: seq<int>, w: nat, h: nat)
    requires |buf| == 4 * (h * w)
    ensures Flatten(Dimensional(buf, w, h)) == buf
  {
    var g := Dimensional(buf, w, h);
    FlattenLength(g, w);
    forall p | 0 <= p < |buf|
      ensures Flatten(g)[p] == buf[p]
    {
      var i, j, k := CellOf(p, w, h);
      FlattenAt(g, w, i, j, k);
      DimensionalAt(buf, w, h, i, j, k);
    }
  }

  // ---------------------------------------------------------------------------
  // Grids the stages update in place
  // ---------------------------------------------------------------------------

  /** The grid held in a as the nested arrays the source indexes, row by row. */
  function Contents<T>(a: array2<T>): (g: seq<seq<T>>)
    reads a
    ensures |g| == a.Length0 && Rectangular(g, a.Length1)
    ensures forall i, j :: 0 <= i < a.Length0 && 0 <= j < a.Length1 ==> g[i][j] == a[i, j]
  {
    seq(a.Length0, i requires 0 <= i < a.Length0 reads a =>
      seq(a.Length1, j requires 0 <= j < a.Length1 reads a => a[i, j]))
  }

  /** The store grid[i][j] = v. */
  method Write<T>(a: array2<T>, i: nat, j: nat, v: T)
    requires i < a.Length0 && j < a.Length1
    modifies a
    ensures Contents(a) == old(Contents(a))[i := old(Contents(a))[i][j := v]]
  {
    ghost var g := Contents(a);
    a[i, j] := v;
    forall x | 0 <= x < a.Length0
      ensures Contents(a)[x] == g[i := g[i][j := v]][x]
    {
    }
  }
}
