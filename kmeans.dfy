/**
 * The colour quantisation stage (src/kmeans.js). Points are RGB triples as exact
 * reals; the seeded generator is replaced by the sequence of its draws in [0, 1),
 * consumed from a cursor, so every method that draws returns the new cursor and
 * None when the draws run out before the source's loop would stop.
 */
module KMeans {
  import opened Helper

  type Point = seq<real>

  /** One cluster of the result: the indexes of its points and the centroid they were assigned to. */
  datatype Cluster = Cluster(pointIndexes: seq<nat>, centroid: Point)

  /** What kmeans resolves to: the last clusters and the number of iterations run. */
  datatype Clustering = Clustering(clusters: seq<Cluster>, iteration: nat)

  predicate UnitDraws(draws: seq<real>)
  {
    forall d :: 0 <= d < |draws| ==> 0.0 <= draws[d] < 1.0
  }

  /** All points have dimension d. */
  predicate Uniform(points: seq<Point>, d: nat)
  {
    forall i :: 0 <= i < |points| ==> |points[i]| == d
  }

  // ---------------------------------------------------------------------------
  // randomInt, compareCentroids, shouldStop
  // ---------------------------------------------------------------------------

  /** randomInt(min, max) on the draw u: floor(u * (max - min + 1)) + min. */
  function RandomInt(u: real, lo: int, hi: int): (r: int)
    requires 0.0 <= u < 1.0
    ensures lo <= hi ==> lo <= r <= hi
  {
    var n := (hi - lo + 1) as real;
    if lo <= hi then
      assert 0.0 <= u * n < n by {
        assert u * n <= 1.0 * n - (1.0 - u) * n;
      }
      (u * n).Floor + lo
    else
      (u * n).Floor + lo
  }

  /** compareCentroids is the prefix comparison of isEqualArr on coordinates. */
  method CompareCentroids(c1: Point, c2: Point) returns (same: bool)
    ensures same <==> |c1| <= |c2| && forall i :: 0 <= i < |c1| ==> c1[i] == c2[i]
  {
    same := IsEqualArr(c1, c2);
  }

  /** Every centroid agrees coordinate-wise with its old counterpart. */
  predicate Converged(centroids: seq<Point>, oldCentroids: seq<Point>)
    requires |centroids| <= |oldCentroids|
  {
    forall i :: 0 <= i < |centroids| ==> PrefixEqual(centroids[i], oldCentroids[i])
  }

  /** For centroids of matching shapes, convergence is plain equality. */
  lemma ConvergedIsEquality(centroids: seq<Point>, oldCentroids: seq<Point>)
    requires |centroids| == |oldCentroids|
    requires forall i :: 0 <= i < |centroids| ==> |centroids[i]| == |oldCentroids[i]|
    ensures Converged(centroids, oldCentroids) <==> centroids == oldCentroids
  {
    forall i | 0 <= i < |centroids|
      ensures PrefixEqual(centroids[i], oldCentroids[i]) <==> centroids[i] == oldCentroids[i]
    {
      PrefixEqualSameLength(centroids[i], oldCentroids[i]);
    }
    if Converged(centroids, oldCentroids) {
      assert forall i :: 0 <= i < |centroids| ==> centroids[i] == oldCentroids[i];
    }
  }

  /**
   * shouldStop: stop once the iteration bound is passed; never stop before there are
   * old centroids; otherwise stop exactly when nothing moved.
   */
  method ShouldStop(centroids: seq<Point>, oldCentroids: seq<Point>, iteration: int, maxIterations: int)
    returns (stop: bool)
    requires |oldCentroids| == 0 || |centroids| <= |oldCentroids|
    ensures iteration > maxIterations ==> stop
    ensures iteration <= maxIterations && |oldCentroids| == 0 ==> !stop
    ensures iteration <= maxIterations && |oldCentroids| > 0 ==> (stop <==> Converged(centroids, oldCentroids))
  {
    if iteration > maxIterations {
      return true;
    }
    if |oldCentroids| == 0 {
      return false;
    }
    var i := 0;
    while i < |centroids|
      invariant 0 <= i <= |centroids|
      invariant forall k :: 0 <= k < i ==> PrefixEqual(centroids[k], oldCentroids[k])
    {
      var same := CompareCentroids(centroids[i], oldCentroids[i]);
      if !same {
        return false;
      }
      i := i + 1;
    }
    return true;
  }

  // ---------------------------------------------------------------------------
  // getRandomCentroids
  // ---------------------------------------------------------------------------

  predicate Distinct(s: seq<nat>)
  {
    forall a, b :: 0 <= a < b < |s| ==> s[a] != s[b]
  }

  /**
   * getRandomCentroids: K_COLORS times, draw an index in [0, length-1], redrawing
   * while it was already taken; then the points at those indexes. The count is
   * always the configured k (the source ignores its second argument).
   */
  method GetRandomCentroids(dataset: seq<Point>, k: nat, draws: seq<real>, cursor: nat)
    returns (centroids: Option<seq<Point>>, indexes: seq<nat>, next: nat)
    requires |dataset| > 0
    requires UnitDraws(draws) && cursor <= |draws|
    ensures cursor <= next <= |draws|
    ensures centroids.None? ==> next == |draws|
    ensures centroids.Some? ==>
      && |indexes| == k
      && Distinct(indexes)
      && (forall a :: 0 <= a < |indexes| ==> indexes[a] < |dataset|)
      && |centroids.value| == k
      && (forall a :: 0 <= a < k ==> centroids.value[a] == dataset[indexes[a]])
  {
    var n := |dataset|;
    indexes := [];
    next := cursor;
    while |indexes| < k
      invariant cursor <= next <= |draws|
      invariant |indexes| <= k
      invariant Distinct(indexes)
      invariant forall a :: 0 <= a < |indexes| ==> indexes[a] < n
      decreases k - |indexes|
    {
      if next == |draws| {
        return None, indexes, next;
      }
      var idx := RandomInt(draws[next], 0, n - 1);
      next := next + 1;
      while idx in indexes
        invariant cursor <= next <= |draws|
        invariant 0 <= idx < n
        decreases |draws| - next
      {
        if next == |draws| {
          return None, indexes, next;
        }
        idx := RandomInt(draws[next], 0, n - 1);
        next := next + 1;
      }
      indexes := indexes + [idx];
    }
    var cs: seq<Point> := [];
    var i := 0;
    while i < |indexes|
      invariant 0 <= i <= |indexes|
      invariant |cs| == i
      invariant forall a :: 0 <= a < i ==> cs[a] == dataset[indexes[a]]
    {
      cs := cs + [dataset[indexes[i]]];
      i := i + 1;
    }
    return Some(cs), indexes, next;
  }

  // ---------------------------------------------------------------------------
  // pointsCluster
  // ---------------------------------------------------------------------------

  /** Every point is short enough to be measured against every centroid. */
  predicate Measurable(dataset: seq<Point>, centroids: seq<Point>)
  {
    forall i, c :: 0 <= i < |dataset| && 0 <= c < |centroids| ==> |dataset[i]| <= |centroids[c]|
  }

  /**
   * j is the first nearest among the first m centroids: strictly closer than every
   * earlier one, no farther than every later one.
   */
  predicate FirstNearest(p: Point, cs: seq<Point>, m: nat, j: nat)
    requires m <= |cs|
    requires forall c :: 0 <= c < |cs| ==> |p| <= |cs[c]|
  {
    && j < m
    && (forall c :: 0 <= c < j ==> SqDist(p, cs[j]) < SqDist(p, cs[c]))
    && (forall c :: j < c < m ==> SqDist(p, cs[j]) <= SqDist(p, cs[c]))
  }

  /** The scan of pointsCluster's inner loop over the first m centroids. */
  function NearestIn(p: Point, cs: seq<Point>, m: nat): (j: nat)
    requires 0 < m <= |cs|
    requires forall c :: 0 <= c < |cs| ==> |p| <= |cs[c]|
    ensures j < m
  {
    if m == 1 then 0
    else
      var b := NearestIn(p, cs, m - 1);
      if SqDist(p, cs[m - 1]) < SqDist(p, cs[b]) then m - 1 else b
  }

  /** The scan keeps the first minimum: point p goes to its first nearest centroid. */
  lemma {:induction false} NearestInIsFirstNearest(p: Point, cs: seq<Point>, m: nat)
    requires 0 < m <= |cs|
    requires forall c :: 0 <= c < |cs| ==> |p| <= |cs[c]|
    ensures FirstNearest(p, cs, m, NearestIn(p, cs, m))
  {
    if m > 1 {
      NearestInIsFirstNearest(p, cs, m - 1);
    }
  }

  /** The first nearest centroid is unique, so the scan finds exactly it. */
  lemma FirstNearestUnique(p: Point, cs: seq<Point>, m: nat, j: nat)
    requires 0 < m <= |cs|
    requires forall c :: 0 <= c < |cs| ==> |p| <= |cs[c]|
    ensures FirstNearest(p, cs, m, j) <==> j == NearestIn(p, cs, m)
  {
    var n := NearestIn(p, cs, m);
    NearestInIsFirstNearest(p, cs, m);
    if FirstNearest(p, cs, m, j) && j != n {
      assert false;
    }
  }

  /** The centroid each point is assigned to: its first nearest one. */
  function Assignment(dataset: seq<Point>, cs: seq<Point>): (a: seq<nat>)
    requires 0 < |cs| && Measurable(dataset, cs)
    ensures |a| == |dataset|
    ensures forall i :: 0 <= i < |dataset| ==> a[i] < |cs|
  {
    seq(|dataset|, i requires 0 <= i < |dataset| => NearestIn(dataset[i], cs, |cs|))
  }

  /** The positions among the first n of a that hold j, increasing. */
  function IndexesOf(a: seq<nat>, j: nat, n: nat): seq<nat>
    requires n <= |a|
  {
    if n == 0 then [] else IndexesOf(a, j, n - 1) + (if a[n - 1] == j then [n - 1] else [])
  }

  lemma {:induction false} IndexesOfSpec(a: seq<nat>, j: nat, n: nat)
    requires n <= |a|
    ensures forall i :: i in IndexesOf(a, j, n) <==> 0 <= i < n && a[i] == j
    ensures forall x :: 0 <= x < |IndexesOf(a, j, n)| ==> IndexesOf(a, j, n)[x] < n
    ensures forall x, y :: 0 <= x < y < |IndexesOf(a, j, n)| ==> IndexesOf(a, j, n)[x] < IndexesOf(a, j, n)[y]
  {
    if n > 0 {
      IndexesOfSpec(a, j, n - 1);
    }
  }

  /** The clusters pointsCluster builds: one per centroid, in centroid order. */
  function ClustersOf(dataset: seq<Point>, cs: seq<Point>): (r: seq<Cluster>)
    requires 0 < |cs| && Measurable(dataset, cs)
    ensures |r| == |cs|
  {
    var a := Assignment(dataset, cs);
    seq(|cs|, j requires 0 <= j < |cs| => Cluster(IndexesOf(a, j, |dataset|), cs[j]))
  }

  /** Some cluster lists point p. */
  predicate Listed(clusters: seq<Cluster>, p: nat)
  {
    exists j :: 0 <= j < |clusters| && p in clusters[j].pointIndexes
  }

  /**
   * The clusters split the indexes 0..n-1: every index lies in exactly one cluster,
   * no other number appears, and each cluster lists its indexes increasing.
   */
  predicate Partition(clusters: seq<Cluster>, n: nat)
  {
    && (forall j, t :: 0 <= j < |clusters| && 0 <= t < |clusters[j].pointIndexes| ==>
          clusters[j].pointIndexes[t] < n)
    && (forall j, x, y :: 0 <= j < |clusters| && 0 <= x < y < |clusters[j].pointIndexes| ==>
          clusters[j].pointIndexes[x] < clusters[j].pointIndexes[y])
    && (forall p: nat :: p < n ==> Listed(clusters, p))
    && (forall p, j1, j2 ::
          (0 <= j1 < |clusters| && 0 <= j2 < |clusters| &&
           p in clusters[j1].pointIndexes && p in clusters[j2].pointIndexes) ==> j1 == j2)
  }

  /** Point i lies in cluster j exactly when j is its first nearest centroid; together a partition. */
  lemma ClustersOfPartition(dataset: seq<Point>, cs: seq<Point>)
    requires 0 < |cs| && Measurable(dataset, cs)
    ensures Partition(ClustersOf(dataset, cs), |dataset|)
    ensures forall i, j :: 0 <= i < |dataset| && 0 <= j < |cs| ==>
      (i in ClustersOf(dataset, cs)[j].pointIndexes <==> FirstNearest(dataset[i], cs, |cs|, j))
  {
    var r := ClustersOf(dataset, cs);
    var a := Assignment(dataset, cs);
    forall j | 0 <= j < |cs|
      ensures forall i :: i in r[j].pointIndexes <==> 0 <= i < |dataset| && a[i] == j
      ensures forall x :: 0 <= x < |r[j].pointIndexes| ==> r[j].pointIndexes[x] < |dataset|
      ensures forall x, y :: 0 <= x < y < |r[j].pointIndexes| ==> r[j].pointIndexes[x] < r[j].pointIndexes[y]
    {
      IndexesOfSpec(a, j, |dataset|);
    }
    forall i, j | 0 <= i < |dataset| && 0 <= j < |cs|
      ensures i in r[j].pointIndexes <==> FirstNearest(dataset[i], cs, |cs|, j)
    {
      FirstNearestUnique(dataset[i], cs, |cs|, j);
    }
    forall p: nat | p < |dataset|
      ensures Listed(r, p)
    {
      assert p in r[a[p]].pointIndexes;
    }
  }

  /** The inner loop of pointsCluster: the first centroid at least distance from p. */
  method NearestCentroid(p: Point, centroids: seq<Point>) returns (centroidIdx: nat)
    requires 0 < |centroids|
    requires forall c :: 0 <= c < |centroids| ==> |p| <= |centroids[c]|
    ensures centroidIdx == NearestIn(p, centroids, |centroids|)
  {
    var minDist := 0.0;
    centroidIdx := 0;
    var j := 0;
    while j < |centroids|
      invariant 0 <= j <= |centroids|
      invariant 0 < j ==> centroidIdx == NearestIn(p, centroids, j)
      invariant 0 < j ==> minDist == SqDist(p, centroids[centroidIdx])
    {
      var currDist := GetDistance(p, centroids[j]);
      if j == 0 {
        minDist := currDist;
        centroidIdx := j;
      } else if currDist < minDist {
        minDist := currDist;
        centroidIdx := j;
      }
      j := j + 1;
    }
  }

  /** Pushing point i onto the cluster of a[i] extends the clusters of the first i points. */
  lemma AssignmentAt(dataset: seq<Point>, cs: seq<Point>, i: nat)
    requires 0 < |cs| && Measurable(dataset, cs) && i < |dataset|
    ensures Assignment(dataset, cs)[i] == NearestIn(dataset[i], cs, |cs|)
  {
  }

  lemma MeasurableAt(dataset: seq<Point>, cs: seq<Point>, i: nat)
    requires Measurable(dataset, cs) && i < |dataset|
    ensures forall c :: 0 <= c < |cs| ==> |dataset[i]| <= |cs[c]|
  {
  }

  /** The clusters after the first n points have been pushed by assignment a. */
  function Pushed(a: seq<nat>, centroids: seq<Point>, n: nat): (r: seq<Cluster>)
    requires n <= |a|
    ensures |r| == |centroids|
  {
    seq(|centroids|, j requires 0 <= j < |centroids| => Cluster(IndexesOf(a, j, n), centroids[j]))
  }

  /** The first n clusters pointsCluster creates: one empty cluster per centroid. */
  function Seeds(centroids: seq<Point>, n: nat): (r: seq<Cluster>)
    requires n <= |centroids|
    ensures |r| == n
  {
    seq(n, j requires 0 <= j < n => Cluster([], centroids[j]))
  }

  lemma SeedsStep(centroids: seq<Point>, n: nat)
    requires n < |centroids|
    ensures Seeds(centroids, n) + [Cluster([], centroids[n])] == Seeds(centroids, n + 1)
  {
  }

  lemma SeedsPushed(a: seq<nat>, centroids: seq<Point>)
    ensures Seeds(centroids, |centroids|) == Pushed(a, centroids, 0)
  {
  }

  /** Pushing point i onto the cluster a[i] names extends the assignment by one point. */
  lemma PushStep(a: seq<nat>, centroids: seq<Point>, i: nat)
    requires i < |a| && a[i] < |centroids|
    ensures var r := Pushed(a, centroids, i);
      r[a[i] := r[a[i]].(pointIndexes := r[a[i]].pointIndexes + [i])] == Pushed(a, centroids, i + 1)
  {
    var r := Pushed(a, centroids, i);
    var u := r[a[i] := r[a[i]].(pointIndexes := r[a[i]].pointIndexes + [i])];
    var r2 := Pushed(a, centroids, i + 1);
    forall j | 0 <= j < |centroids|
      ensures u[j] == r2[j]
    {
      assert IndexesOf(a, j, i + 1) == IndexesOf(a, j, i) + (if a[i] == j then [i] else []);
    }
  }

  lemma PushedAll(dataset: seq<Point>, cs: seq<Point>)
    requires 0 < |cs| && Measurable(dataset, cs)
    ensures Pushed(Assignment(dataset, cs), cs, |dataset|) == ClustersOf(dataset, cs)
  {
  }

  /**
   * pointsCluster: one cluster per centroid, then each point pushed onto the cluster
   * of its first nearest centroid.
   */
  method PointsCluster(dataset: seq<Point>, centroids: seq<Point>) returns (clusters: seq<Cluster>)
    requires 0 < |centroids| || |dataset| == 0
    requires Measurable(dataset, centroids)
    ensures |clusters| == |centroids|
    ensures 0 < |centroids| ==> clusters == ClustersOf(dataset, centroids)
  {
    hide Seeds, Pushed, ClustersOf, Assignment, Measurable;
    clusters := [];
    var i: nat := 0;
    while i < |centroids|
      invariant i <= |centroids|
      invariant clusters == Seeds(centroids, i)
    {
      SeedsStep(centroids, i);
      clusters := clusters + [Cluster([], centroids[i])];
      i := i + 1;
    }
    if |centroids| == 0 {
      return;
    }
    ghost var a := Assignment(dataset, centroids);
    SeedsPushed(a, centroids);
    PushedAll(dataset, centroids);
    i := 0;
    while i < |dataset|
      invariant i <= |dataset|
      invariant clusters == Pushed(a, centroids, i)
    {
      MeasurableAt(dataset, centroids, i);
      var centroidIdx := NearestCentroid(dataset[i], centroids);
      AssignmentAt(dataset, centroids, i);
      var c := clusters[centroidIdx];
      PushStep(a, centroids, i);
      clusters := clusters[centroidIdx := c.(pointIndexes := c.pointIndexes + [i])];
      i := i + 1;
    }
  }

  // ---------------------------------------------------------------------------
  // getPointMean, recalculateCentroids
  // ---------------------------------------------------------------------------

  /** The points of pointIndexes all exist and have at least d coordinates. */
  predicate Selectable(dataset: seq<Point>, pointIndexes: seq<nat>, d: nat)
  {
    forall t :: 0 <= t < |pointIndexes| ==> pointIndexes[t] < |dataset| && d <= |dataset[pointIndexes[t]]|
  }

  /** The sum of coordinate c over the first m selected points. */
  function ColumnSum(dataset: seq<Point>, pointIndexes: seq<nat>, c: nat, m: nat): real
    requires m <= |pointIndexes| && Selectable(dataset, pointIndexes, c + 1)
  {
    if m == 0 then 0.0
    else ColumnSum(dataset, pointIndexes, c, m - 1) + dataset[pointIndexes[m - 1]][c]
  }

  /** The mean of the selected points, in the dimension of the first one. */
  function MeanPoint(dataset: seq<Point>, pointIndexes: seq<nat>): (mean: Point)
    requires 0 < |pointIndexes| && pointIndexes[0] < |dataset|
    requires Selectable(dataset, pointIndexes, |dataset[pointIndexes[0]]|)
    ensures |mean| == |dataset[pointIndexes[0]]|
  {
    var d := |dataset[pointIndexes[0]]|;
    seq(d, c requires 0 <= c < d =>
      ColumnSum(dataset, pointIndexes, c, |pointIndexes|) / |pointIndexes| as real)
  }

  /** getPointMean: for each coordinate, the running total divided by the count. */
  method GetPointMean(dataset: seq<Point>, pointIndexes: seq<nat>) returns (mean: Point)
    requires 0 < |pointIndexes| && pointIndexes[0] < |dataset|
    requires Selectable(dataset, pointIndexes, |dataset[pointIndexes[0]]|)
    ensures mean == MeanPoint(dataset, pointIndexes)
  {
    var d := |dataset[pointIndexes[0]]|;
    mean := seq(d, _ => 0.0);
    var i := 0;
    while i < d
      invariant 0 <= i <= d && |mean| == d
      invariant forall c :: 0 <= c < i ==> mean[c] == MeanPoint(dataset, pointIndexes)[c]
    {
      var total := 0.0;
      var j := 0;
      while j < |pointIndexes|
        invariant 0 <= j <= |pointIndexes|
        invariant total == ColumnSum(dataset, pointIndexes, i, j)
      {
        total := total + dataset[pointIndexes[j]][i];
        j := j + 1;
      }
      mean := mean[i := total / |pointIndexes| as real];
      i := i + 1;
    }
  }

  lemma {:induction false} ColumnSumBounds(dataset: seq<Point>, pointIndexes: seq<nat>, c: nat, m: nat, lo: real, hi: real)
    requires m <= |pointIndexes| && Selectable(dataset, pointIndexes, c + 1)
    requires forall t :: 0 <= t < m ==> lo <= dataset[pointIndexes[t]][c] <= hi
    ensures m as real * lo <= ColumnSum(dataset, pointIndexes, c, m) <= m as real * hi
  {
    if m > 0 {
      ColumnSumBounds(dataset, pointIndexes, c, m - 1, lo, hi);
      var k := (m - 1) as real;
      assert m as real * lo == k * lo + lo;
      assert m as real * hi == k * hi + hi;
    }
  }

  lemma DivBounds(s: real, m: real, lo: real, hi: real)
    requires 0.0 < m && m * lo <= s <= m * hi
    ensures lo <= s / m <= hi
  {
    var q := s / m;
    assert q * m == s;
    assert (q - lo) * m >= 0.0;
    assert (hi - q) * m >= 0.0;
  }

  /**
   * A centroid stays inside the range of its points' coordinates; in particular the
   * mean of colour points is again a colour in [0, 255].
   */
  lemma MeanPointBounds(dataset: seq<Point>, pointIndexes: seq<nat>, lo: real, hi: real)
    requires 0 < |pointIndexes| && pointIndexes[0] < |dataset|
    requires Selectable(dataset, pointIndexes, |dataset[pointIndexes[0]]|)
    requires forall t, c :: 0 <= t < |pointIndexes| && 0 <= c < |dataset[pointIndexes[0]]| ==>
      lo <= dataset[pointIndexes[t]][c] <= hi
    ensures forall c :: 0 <= c < |MeanPoint(dataset, pointIndexes)| ==>
      lo <= MeanPoint(dataset, pointIndexes)[c] <= hi
  {
    var m := |pointIndexes| as real;
    forall c | 0 <= c < |dataset[pointIndexes[0]]|
      ensures lo <= MeanPoint(dataset, pointIndexes)[c] <= hi
    {
      ColumnSumBounds(dataset, pointIndexes, c, |pointIndexes|, lo, hi);
      DivBounds(ColumnSum(dataset, pointIndexes, c, |pointIndexes|), m, lo, hi);
    }
  }

  /** The mean of copies of one point is that point. */
  lemma MeanPointOfEqual(dataset: seq<Point>, pointIndexes: seq<nat>)
    requires 0 < |pointIndexes| && pointIndexes[0] < |dataset|
    requires Selectable(dataset, pointIndexes, |dataset[pointIndexes[0]]|)
    requires forall t :: 0 <= t < |pointIndexes| ==> dataset[pointIndexes[t]] == dataset[pointIndexes[0]]
    ensures MeanPoint(dataset, pointIndexes) == dataset[pointIndexes[0]]
  {
    var q := dataset[pointIndexes[0]];
    forall c | 0 <= c < |q|
      ensures MeanPoint(dataset, pointIndexes)[c] == q[c]
    {
      ColumnSumBounds(dataset, pointIndexes, c, |pointIndexes|, q[c], q[c]);
      DivBounds(ColumnSum(dataset, pointIndexes, c, |pointIndexes|), |pointIndexes| as real, q[c], q[c]);
    }
  }

  /**
   * recalculateCentroids: the mean of each non-empty cluster; for an empty cluster
   * the first of a fresh getRandomCentroids draw, which draws k distinct indexes.
   */
  method RecalculateCentroids(dataset: seq<Point>, clusters: seq<Cluster>, k: nat, draws: seq<real>, cursor: nat)
    returns (centroids: Option<seq<Point>>, next: nat)
    requires 0 < |dataset| && Uniform(dataset, |dataset[0]|)
    requires UnitDraws(draws) && cursor <= |draws|
    requires forall j, t :: 0 <= j < |clusters| && 0 <= t < |clusters[j].pointIndexes| ==>
      clusters[j].pointIndexes[t] < |dataset|
    requires 0 < k || |clusters| == 0
    ensures cursor <= next <= |draws|
    ensures centroids.None? ==> next == |draws|
    ensures centroids.Some? ==>
      && |centroids.value| == |clusters|
      && forall j :: 0 <= j < |clusters| ==>
        if 0 < |clusters[j].pointIndexes| then centroids.value[j] == MeanPoint(dataset, clusters[j].pointIndexes)
        else centroids.value[j] in dataset
  {
    var cs: seq<Point> := [];
    next := cursor;
    var i := 0;
    while i < |clusters|
      invariant 0 <= i <= |clusters| && |cs| == i
      invariant cursor <= next <= |draws|
      invariant forall j :: 0 <= j < i ==>
        if 0 < |clusters[j].pointIndexes| then cs[j] == MeanPoint(dataset, clusters[j].pointIndexes)
        else cs[j] in dataset
    {
      var pi := clusters[i].pointIndexes;
      var newCentroid: Point;
      if 0 < |pi| {
        newCentroid := GetPointMean(dataset, pi);
      } else {
        var drawn, _, nx := GetRandomCentroids(dataset, k, draws, next);
        next := nx;
        if drawn.None? {
          return None, next;
        }
        newCentroid := drawn.value[0];
      }
      cs := cs + [newCentroid];
      i := i + 1;
    }
    return Some(cs), next;
  }

  lemma MeanPointDimension(dataset: seq<Point>, pointIndexes: seq<nat>)
    requires 0 < |dataset| && Uniform(dataset, |dataset[0]|)
    requires 0 < |pointIndexes| && forall t :: 0 <= t < |pointIndexes| ==> pointIndexes[t] < |dataset|
    ensures Selectable(dataset, pointIndexes, |dataset[pointIndexes[0]]|)
    ensures |MeanPoint(dataset, pointIndexes)| == |dataset[0]|
  {
  }

  // ---------------------------------------------------------------------------
  // kmeans
  // ---------------------------------------------------------------------------

  /** The guard of kmeans: points exist, the first has coordinates, and there are more points than K. */
  predicate Clusterable(dataset: seq<Point>, k: nat)
  {
    |dataset| > 0 && |dataset[0]| > 0 && |dataset| > k
  }

  /**
   * kmeans: random initial centroids, then assign-and-recompute until shouldStop. A
   * dataset the guard rejects gives no clusters and iteration 0.
   */
  method KMeansClustering(dataset: seq<Point>, k: nat, maxIterations: int, draws: seq<real>)
    returns (result: Option<Clustering>)
    requires 0 < k
    requires UnitDraws(draws)
    requires 0 < |dataset| ==> Uniform(dataset, |dataset[0]|)
    ensures !Clusterable(dataset, k) ==> result == Some(Clustering([], 0))
    ensures Clusterable(dataset, k) && result.Some? ==>
      var r := result.value;
      && (maxIterations < 0 ==> r == Clustering([], 0))
      && (0 <= maxIterations ==> 1 <= r.iteration <= maxIterations + 1)
      && (0 < r.iteration ==> |r.clusters| == k && Partition(r.clusters, |dataset|))
      && (0 < r.iteration ==> NearestAssigned(dataset, r.clusters))
      && (0 < r.iteration <= maxIterations ==> AtFixpoint(dataset, r.clusters))
  {
    hide Partition, ClustersOf, MeanPoint, Measurable, Converged, Centroids, NearestAssigned, AtFixpoint, Recomputed;
    if !Clusterable(dataset, k) {
      return Some(Clustering([], 0));
    }
    var d := |dataset[0]|;
    var iteration := 0;
    var oldCentroids: seq<Point> := [];
    var clusters: seq<Cluster> := [];
    var initial, _, next := GetRandomCentroids(dataset, k, draws, 0);
    if initial.None? {
      return None;
    }
    var centroids := initial.value;
    var stop := ShouldStop(centroids, oldCentroids, iteration, maxIterations);
    while !stop
      invariant 0 <= iteration && next <= |draws|
      invariant |centroids| == k && Uniform(centroids, d)
      invariant |oldCentroids| == 0 || |oldCentroids| == k
      invariant !stop ==> iteration <= maxIterations
      invariant 0 < iteration ==> iteration <= maxIterations + 1
      invariant 0 <= maxIterations && iteration == 0 ==> !stop
      invariant iteration == 0 ==> clusters == []
      invariant 0 < iteration ==> |clusters| == k && Partition(clusters, |dataset|)
      invariant 0 < iteration ==> |oldCentroids| == k && Recomputed(dataset, clusters, oldCentroids, centroids)
      invariant 0 < iteration <= maxIterations && stop ==> Converged(centroids, oldCentroids)
      decreases maxIterations + 1 - iteration
    {
      oldCentroids := centroids;
      UniformMeasurable(dataset, centroids, d);
      clusters := PointsCluster(dataset, centroids);
      ClustersOfPartition(dataset, centroids);
      PartitionIndexes(clusters, |dataset|);
      var recalculated, nx := RecalculateCentroids(dataset, clusters, k, draws, next);
      if recalculated.None? {
        return None;
      }
      RecalculatedUniform(dataset, clusters, recalculated.value);
      RecomputedStep(dataset, d, oldCentroids, clusters, recalculated.value);
      centroids := recalculated.value;
      next := nx;
      iteration := iteration + 1;
      stop := ShouldStop(centroids, oldCentroids, iteration, maxIterations);
    }
    if 0 < iteration {
      RecomputedEnd(dataset, d, clusters, oldCentroids, centroids, iteration <= maxIterations);
    }
    return Some(Clustering(clusters, iteration));
  }

  /** Every cluster holds exactly the points whose first nearest centroid is its own (pointsCluster). */
  predicate NearestAssigned(dataset: seq<Point>, clusters: seq<Cluster>)
  {
    0 < |clusters| && Measurable(dataset, Centroids(clusters)) && clusters == ClustersOf(dataset, Centroids(clusters))
  }

  /** Every non-empty cluster's centroid is the mean of its points: recalculateCentroids moves nothing. */
  predicate AtFixpoint(dataset: seq<Point>, clusters: seq<Cluster>)
    requires 0 < |dataset| && Uniform(dataset, |dataset[0]|) && Partition(clusters, |dataset|)
  {
    forall j :: 0 <= j < |clusters| && 0 < |clusters[j].pointIndexes| ==>
      MeanPoint(dataset, clusters[j].pointIndexes) == clusters[j].centroid
  }

  /**
   * The state after an iteration of kmeans: clusters is pointsCluster of oldCentroids,
   * and centroids has the mean of every non-empty cluster.
   */
  predicate Recomputed(dataset: seq<Point>, clusters: seq<Cluster>, oldCentroids: seq<Point>, centroids: seq<Point>)
  {
    && 0 < |dataset| && Uniform(dataset, |dataset[0]|) && Partition(clusters, |dataset|)
    && 0 < |oldCentroids| && Uniform(oldCentroids, |dataset[0]|) && Measurable(dataset, oldCentroids)
    && oldCentroids == Centroids(clusters) && clusters == ClustersOf(dataset, oldCentroids)
    && |centroids| == |clusters|
    && forall j :: 0 <= j < |clusters| && 0 < |clusters[j].pointIndexes| ==>
         centroids[j] == MeanPoint(dataset, clusters[j].pointIndexes)
  }

  lemma RecomputedStep(dataset: seq<Point>, d: nat, cs: seq<Point>, clusters: seq<Cluster>, recalculated: seq<Point>)
    requires 0 < |dataset| && d == |dataset[0]| && Uniform(dataset, d)
    requires 0 < |cs| && Uniform(cs, d) && Measurable(dataset, cs)
    requires clusters == ClustersOf(dataset, cs) && Partition(clusters, |dataset|)
    requires |recalculated| == |clusters|
    requires forall j :: 0 <= j < |clusters| ==>
      if 0 < |clusters[j].pointIndexes| then recalculated[j] == MeanPoint(dataset, clusters[j].pointIndexes)
      else recalculated[j] in dataset
    ensures Recomputed(dataset, clusters, cs, recalculated)
  {
    CentroidsOfClusters(dataset, cs);
  }

  /**
   * When kmeans stops, its clusters are pointsCluster of their own centroids, and when it
   * stops by convergence rather than by the iteration bound, every centroid is its cluster's mean.
   */
  lemma RecomputedEnd(dataset: seq<Point>, d: nat, clusters: seq<Cluster>, oldCentroids: seq<Point>, centroids: seq<Point>,
                      converged: bool)
    requires Recomputed(dataset, clusters, oldCentroids, centroids) && d == |dataset[0]| && Uniform(centroids, d)
    requires converged ==> |centroids| <= |oldCentroids| && Converged(centroids, oldCentroids)
    ensures NearestAssigned(dataset, clusters)
    ensures converged ==> AtFixpoint(dataset, clusters)
  {
    if converged {
      ConvergedIsEquality(centroids, oldCentroids);
    }
  }

  /** The centroids the clusters were built around. */
  function Centroids(clusters: seq<Cluster>): (cs: seq<Point>)
    ensures |cs| == |clusters| && forall j :: 0 <= j < |clusters| ==> cs[j] == clusters[j].centroid
  {
    seq(|clusters|, j requires 0 <= j < |clusters| => clusters[j].centroid)
  }

  /** pointsCluster keeps each centroid with its cluster. */
  lemma CentroidsOfClusters(dataset: seq<Point>, cs: seq<Point>)
    requires 0 < |cs| && Measurable(dataset, cs)
    ensures Centroids(ClustersOf(dataset, cs)) == cs
  {
  }

  lemma UniformMeasurable(dataset: seq<Point>, centroids: seq<Point>, d: nat)
    requires Uniform(dataset, d) && Uniform(centroids, d)
    ensures Measurable(dataset, centroids)
  {
  }

  lemma PartitionIndexes(clusters: seq<Cluster>, n: nat)
    requires Partition(clusters, n)
    ensures forall j, t :: 0 <= j < |clusters| && 0 <= t < |clusters[j].pointIndexes| ==>
      clusters[j].pointIndexes[t] < n
  {
  }

  /** Recomputed centroids (means of members, or drawn points) have the dataset's dimension. */
  lemma RecalculatedUniform(dataset: seq<Point>, clusters: seq<Cluster>, cs: seq<Point>)
    requires 0 < |dataset| && Uniform(dataset, |dataset[0]|)
    requires forall j, t :: 0 <= j < |clusters| && 0 <= t < |clusters[j].pointIndexes| ==>
      clusters[j].pointIndexes[t] < |dataset|
    requires |cs| == |clusters|
    requires forall j :: 0 <= j < |clusters| ==>
      if 0 < |clusters[j].pointIndexes| then cs[j] == MeanPoint(dataset, clusters[j].pointIndexes)
      else cs[j] in dataset
    ensures Uniform(cs, |dataset[0]|)
  {
    forall j | 0 <= j < |cs|
      ensures |cs[j]| == |dataset[0]|
    {
      if 0 < |clusters[j].pointIndexes| {
        MeanPointDimension(dataset, clusters[j].pointIndexes);
      }
    }
  }

  // ---------------------------------------------------------------------------
  // groupColorPoints, segmentImage
  // ---------------------------------------------------------------------------

  /** groupColorPoints: one [r, g, b] point per complete group of four bytes; alpha is dropped. */
  method GroupColorPoints(buf: seq<int>) returns (points: seq<Point>)
    ensures |points| == |buf| / 4
    ensures forall t :: 0 <= t < |points| ==>
      points[t] == [buf[4 * t] as real, buf[4 * t + 1] as real, buf[4 * t + 2] as real]
  {
    points := [];
    var i := 0;
    while i < |buf| - 3
      invariant i == 4 * |points| && i <= |buf| + 3
      invariant (|buf| < 4 && i == 0) || i <= |buf|
      invariant forall t :: 0 <= t < |points| ==>
        points[t] == [buf[4 * t] as real, buf[4 * t + 1] as real, buf[4 * t + 2] as real]
    {
      points := points + [[buf[i] as real, buf[i + 1] as real, buf[i + 2] as real]];
      i := i + 4;
    }
  }

  /** The store into a Uint8ClampedArray of an integer value. */
  function Clamp8(v: int): (b: int)
    ensures 0 <= b <= 255
    ensures 0 <= v <= 255 ==> b == v
  {
    if v < 0 then 0 else if v > 255 then 255 else v
  }

  /** The pixel segmentImage stamps for a centroid: its channels rounded, then opaque. */
  function Stamp(centroid: Point): Pixel
    requires |centroid| == 3
  {
    Pixel(Round(centroid[0]), Round(centroid[1]), Round(centroid[2]), 255)
  }

  function ClampPixel(p: Pixel): Pixel
  {
    Pixel(Clamp8(p.r), Clamp8(p.g), Clamp8(p.b), Clamp8(p.a))
  }

  /** The last of the first m clusters that lists point p, or -1. */
  function Owner(clusters: seq<Cluster>, p: nat, m: nat): (r: int)
    requires m <= |clusters|
    ensures -1 <= r < m
    ensures r >= 0 ==> p in clusters[r].pointIndexes
    ensures forall j :: r < j < m ==> p !in clusters[j].pointIndexes
  {
    if m == 0 then -1
    else if p in clusters[m - 1].pointIndexes then m - 1
    else Owner(clusters, p, m - 1)
  }

  /** Every one of the first n points is listed by some cluster. */
  predicate Covers(clusters: seq<Cluster>, n: nat)
  {
    forall p: nat :: p < n ==> Listed(clusters, p)
  }

  predicate RgbCentroids(clusters: seq<Cluster>)
  {
    forall j :: 0 <= j < |clusters| ==> |clusters[j].centroid| == 3
  }

  /** The pixels segmentImage flattens: each point gets the stamp of its (last) cluster. */
  function Segmented(clusters: seq<Cluster>, n: nat): (px: seq<Pixel>)
    requires Covers(clusters, n) && RgbCentroids(clusters)
    ensures |px| == n
  {
    seq(n, p requires 0 <= p < n =>
      assert Listed(clusters, p);
      Stamp(clusters[Owner(clusters, p, |clusters|)].centroid))
  }

  /**
   * The first loop of segmentImage: every point listed by a cluster gets that
   * cluster's stamp, later clusters overwriting earlier ones; other slots stay holes.
   */
  method StampClusters(n: nat, clusters: seq<Cluster>) returns (segmented: seq<Option<Pixel>>)
    requires RgbCentroids(clusters)
    requires forall j, t :: 0 <= j < |clusters| && 0 <= t < |clusters[j].pointIndexes| ==>
      clusters[j].pointIndexes[t] < n
    ensures |segmented| == n
    ensures forall p :: 0 <= p < n ==> (segmented[p] ==
      if Owner(clusters, p, |clusters|) >= 0
      then Some(Stamp(clusters[Owner(clusters, p, |clusters|)].centroid)) else None)
  {
    segmented := seq(n, _ => None);
    var i := 0;
    while i < |clusters|
      invariant 0 <= i <= |clusters| && |segmented| == n
      invariant forall p :: 0 <= p < n ==> (segmented[p] ==
        if Owner(clusters, p, i) >= 0 then Some(Stamp(clusters[Owner(clusters, p, i)].centroid)) else None)
    {
      var pointIndexes := clusters[i].pointIndexes;
      var stamp := Stamp(clusters[i].centroid);
      var j := 0;
      while j < |pointIndexes|
        invariant 0 <= j <= |pointIndexes| && |segmented| == n
        invariant forall p :: 0 <= p < n ==> (segmented[p] ==
          if p in pointIndexes[..j] then Some(stamp)
          else if Owner(clusters, p, i) >= 0 then Some(Stamp(clusters[Owner(clusters, p, i)].centroid))
          else None)
      {
        segmented := segmented[pointIndexes[j] := Some(stamp)];
        assert pointIndexes[..j + 1] == pointIndexes[..j] + [pointIndexes[j]];
        j := j + 1;
      }
      assert pointIndexes[..j] == pointIndexes;
      i := i + 1;
    }
  }

  /** The clamped pixels segmentImage writes, one per point. */
  function SegmentedBuffer(clusters: seq<Cluster>, n: nat): (px: seq<Pixel>)
    requires Covers(clusters, n) && RgbCentroids(clusters)
    ensures |px| == n
  {
    var s := Segmented(clusters, n);
    seq(n, p requires 0 <= p < n => ClampPixel(s[p]))
  }

  /**
   * segmentImage: stamp every listed point with its cluster's pixel, then flatten the
   * pixels into a fresh clamped byte buffer of the original length.
   */
  method SegmentImage(len: nat, clustering: Clustering) returns (out: seq<int>)
    requires len % 4 == 0
    requires RgbCentroids(clustering.clusters)
    requires forall j, t :: 0 <= j < |clustering.clusters| && 0 <= t < |clustering.clusters[j].pointIndexes| ==>
      clustering.clusters[j].pointIndexes[t] < len / 4
    requires Covers(clustering.clusters, len / 4)
    ensures |out| == len
    ensures out == FlattenRow(SegmentedBuffer(clustering.clusters, len / 4))
  {
    var clusters := clustering.clusters;
    var n := len / 4;
    var segmented := StampClusters(n, clusters);
    ghost var px := SegmentedBuffer(clusters, n);
    hide FlattenRow, SegmentedBuffer, Segmented;
    out := [];
    var i := 0;
    while i < n
      invariant 0 <= i <= n
      invariant out == FlattenRow(px[..i])
    {
      SegmentedAt(clusters, n, segmented, i);
      var ch := Channels(segmented[i].value);
      ghost var target := Channels(px[i]);
      ghost var base := out;
      var k := 0;
      while k < |ch|
        invariant 0 <= k <= |ch|
        invariant out == base + target[..k]
      {
        out := out + [Clamp8(ch[k])];
        ClampChannels(segmented[i].value, k);
        TakeSnoc(target, k);
        k := k + 1;
      }
      TakeAll(target);
      FlattenRowSnoc(px, i);
      i := i + 1;
    }
    TakeAll(px);
  }

  /** The slot of a covered point holds a stamp, and its clamped channels are those of the buffer. */
  lemma SegmentedAt(clusters: seq<Cluster>, n: nat, segmented: seq<Option<Pixel>>, i: nat)
    requires Covers(clusters, n) && RgbCentroids(clusters) && |segmented| == n && i < n
    requires forall p :: 0 <= p < n ==> (segmented[p] ==
      if Owner(clusters, p, |clusters|) >= 0
      then Some(Stamp(clusters[Owner(clusters, p, |clusters|)].centroid)) else None)
    ensures segmented[i].Some? && SegmentedBuffer(clusters, n)[i] == ClampPixel(segmented[i].value)
  {
    assert Listed(clusters, i);
  }

  /** The channels of a clamped pixel are the clamped channels. */
  lemma ClampChannels(p: Pixel, k: nat)
    requires k < 4
    ensures Channels(ClampPixel(p))[k] == Clamp8(Channels(p)[k])
  {
  }

  /**
   * Bytes 4p..4p+3 of the segmented buffer are the rounded, clamped channels of the
   * centroid of the last cluster listing p, followed by 255.
   */
  lemma SegmentedBytes(clusters: seq<Cluster>, len: nat, out: seq<int>, p: nat, j: nat)
    requires len % 4 == 0 && Covers(clusters, len / 4) && RgbCentroids(clusters)
    requires out == FlattenRow(SegmentedBuffer(clusters, len / 4))
    requires p < len / 4 && j < |clusters| && p in clusters[j].pointIndexes
    requires forall j2 :: j < j2 < |clusters| ==> p !in clusters[j2].pointIndexes
    ensures 4 * p + 3 < |out|
    ensures out[4 * p] == Clamp8(Round(clusters[j].centroid[0]))
    ensures out[4 * p + 1] == Clamp8(Round(clusters[j].centroid[1]))
    ensures out[4 * p + 2] == Clamp8(Round(clusters[j].centroid[2]))
    ensures out[4 * p + 3] == 255
  {
    var px := SegmentedBuffer(clusters, len / 4);
    assert Owner(clusters, p, |clusters|) == j;
    FlattenRowAt(px, p, 0);
    FlattenRowAt(px, p, 1);
    FlattenRowAt(px, p, 2);
    FlattenRowAt(px, p, 3);
  }
}
