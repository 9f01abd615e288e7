/**
 * The union-find structure inside connectedComponentLabeling
 * (src/regionLabeling.js:125-145): a parent array, find with path
 * compression, and union that hooks the second root under the first.
 * Labels start at 1; node 0 is a placeholder that is its own root.
 */
module DisjointSets {

  /** parent, root and dist describe a forest whose roots point at themselves. */
  ghost predicate Forest(parent: seq<int>, root: seq<int>, dist: seq<nat>)
  {
    && |parent| == |root| == |dist| > 0
    && (forall x :: 0 <= x < |parent| ==> 0 <= parent[x] < |parent| && 0 <= root[x] < |parent|)
    && (forall x {:trigger root[parent[x]]} :: 0 <= x < |parent| ==> root[parent[x]] == root[x])
    && (forall x {:trigger parent[root[x]]} :: 0 <= x < |parent| ==> parent[root[x]] == root[x])
    && (forall x :: 0 <= x < |parent| && parent[x] == x ==> root[x] == x && dist[x] == 0)
    && (forall x {:trigger dist[parent[x]]} :: 0 <= x < |parent| && parent[x] != x ==> dist[parent[x]] < dist[x])
  }

  /** The roots after the root ry is hooked under the root rx. */
  ghost function Merge(root: seq<int>, rx: int, ry: int): (r: seq<int>)
    ensures |r| == |root|
    ensures forall z :: 0 <= z < |root| ==> r[z] == if root[z] == ry then rx else root[z]
  {
    seq(|root|, z requires 0 <= z < |root| => if root[z] == ry then rx else root[z])
  }

  /** The distances after ry's tree moves one level down. */
  ghost function Deepen(dist: seq<nat>, root: seq<int>, ry: int): (d: seq<nat>)
    requires |dist| == |root|
    ensures |d| == |dist|
    ensures forall z :: 0 <= z < |dist| ==> d[z] == if root[z] == ry then dist[z] + 1 else dist[z]
  {
    seq(|dist|, z requires 0 <= z < |dist| => if root[z] == ry then dist[z] + 1 else dist[z])
  }

  /** What the forest says about one node x. */
  lemma ForestAt(parent: seq<int>, root: seq<int>, dist: seq<nat>, x: int)
    requires Forest(parent, root, dist) && 0 <= x < |parent|
    ensures |parent| == |root| == |dist| > 0
    ensures 0 <= parent[x] < |parent| && 0 <= root[x] < |parent| && root[parent[x]] == root[x]
    ensures parent[root[x]] == root[x]
    ensures parent[x] == x ==> root[x] == x && dist[x] == 0
    ensures parent[x] != x ==> dist[parent[x]] < dist[x]
  {
  }

  /** A new node that is its own root keeps the forest. */
  lemma Grow(parent: seq<int>, root: seq<int>, dist: seq<nat>)
    requires Forest(parent, root, dist)
    ensures Forest(parent + [|parent|], root + [|root|], dist + [0])
  {
    var n := |parent|;
    var p, r, d := parent + [n], root + [n], dist + [0];
    ForestAt(parent, root, dist, 0);
    hide Forest;
    forall x | 0 <= x < n + 1
      ensures 0 <= p[x] < n + 1 && 0 <= r[x] < n + 1
      ensures p[x] == x ==> r[x] == x && d[x] == 0
    {
      if x < n {
        ForestAt(parent, root, dist, x);
      }
    }
    forall x {:trigger r[p[x]]} | 0 <= x < n + 1
      ensures r[p[x]] == r[x]
    {
      if x < n {
        ForestAt(parent, root, dist, x);
      }
    }
    forall x {:trigger p[r[x]]} | 0 <= x < n + 1
      ensures p[r[x]] == r[x]
    {
      if x < n {
        ForestAt(parent, root, dist, x);
      }
    }
    forall x {:trigger d[p[x]]} | 0 <= x < n + 1 && p[x] != x
      ensures d[p[x]] < d[x]
    {
      ForestAt(parent, root, dist, x);
    }
  }

  /** Pointing x straight at its root keeps the forest. */
  lemma Compress(parent: seq<int>, root: seq<int>, dist: seq<nat>, x: int)
    requires Forest(parent, root, dist) && 0 <= x < |parent|
    ensures Forest(parent[x := root[x]], root, dist)
  {
    var r := root[x];
    ForestAt(parent, root, dist, x);
    ForestAt(parent, root, dist, r);
    hide Forest;
    var p := parent[x := r];
    forall z | 0 <= z < |p|
      ensures 0 <= p[z] < |p| && 0 <= root[z] < |p|
      ensures p[z] == z ==> root[z] == z && dist[z] == 0
    {
      ForestAt(parent, root, dist, z);
    }
    forall z {:trigger root[p[z]]} | 0 <= z < |p|
      ensures root[p[z]] == root[z]
    {
      ForestAt(parent, root, dist, z);
    }
    forall z {:trigger p[root[z]]} | 0 <= z < |p|
      ensures p[root[z]] == root[z]
    {
      ForestAt(parent, root, dist, z);
    }
    forall z {:trigger dist[p[z]]} | 0 <= z < |p| && p[z] != z
      ensures dist[p[z]] < dist[z]
    {
      ForestAt(parent, root, dist, z);
    }
  }

  /** Hooking the root ry under the root rx keeps the forest. */
  lemma Hook(parent: seq<int>, root: seq<int>, dist: seq<nat>, rx: int, ry: int)
    requires Forest(parent, root, dist) && 0 <= rx < |parent| && 0 <= ry < |parent| && rx != ry
    requires parent[rx] == rx && parent[ry] == ry
    ensures Forest(parent[ry := rx], Merge(root, rx, ry), Deepen(dist, root, ry))
  {
    ForestAt(parent, root, dist, rx);
    ForestAt(parent, root, dist, ry);
    hide Forest;
    var p, r, d := parent[ry := rx], Merge(root, rx, ry), Deepen(dist, root, ry);
    forall z | 0 <= z < |p|
      ensures 0 <= p[z] < |p| && 0 <= r[z] < |p|
      ensures p[z] == z ==> r[z] == z && d[z] == 0
    {
      ForestAt(parent, root, dist, z);
    }
    forall z {:trigger r[p[z]]} | 0 <= z < |p|
      ensures r[p[z]] == r[z]
    {
      ForestAt(parent, root, dist, z);
    }
    forall z {:trigger p[r[z]]} | 0 <= z < |p|
      ensures p[r[z]] == r[z]
    {
      ForestAt(parent, root, dist, z);
    }
    forall z {:trigger d[p[z]]} | 0 <= z < |p| && p[z] != z
      ensures d[p[z]] < d[z]
    {
      ForestAt(parent, root, dist, z);
    }
  }

  class UnionFind {
    /** parent[x] for every node x. */
    var parent: seq<int>
    /** The root find(x) reaches from x. */
    ghost var root: seq<int>
    /** How far x is from its root; it falls along every parent link. */
    ghost var dist: seq<nat>

    ghost predicate Valid()
      reads this
    {
      Forest(parent, root, dist)
    }

    /** Only the placeholder node 0. */
    constructor ()
      ensures Valid() && parent == [0] && root == [0]
    {
      parent := [0];
      root := [0];
      dist := [0];
    }

    /** parent[currentLabel] = currentLabel: a new singleton set. */
    method Add()
      requires Valid()
      modifies this
      ensures Valid()
      ensures parent == old(parent) + [|old(parent)|] && root == old(root) + [|old(root)|]
    {
      Grow(parent, root, dist);
      hide Forest;
      parent := parent + [|parent|];
      root := root + [|root|];
      dist := dist + [0];
    }

    /** find: the root of x; every node keeps its root, and x now points at it. */
    method Find(x: int) returns (r: int)
      requires Valid() && 0 <= x < |parent|
      modifies this
      ensures Valid() && root == old(root) && |parent| == old(|parent|) && |dist| == |parent|
      ensures r == root[x] && 0 <= r < |parent| && parent[r] == r && parent[x] == r
      decreases dist[x]
    {
      ForestAt(parent, root, dist, x);
      hide Forest;
      var p := parent[x];
      if p == x {
        return x;
      }
      r := Find(p);
      assert r == root[x];
      Compress(parent, root, dist, x);
      parent := parent[x := r];
    }

    /** union: the set of y joins the set of x, whose root becomes the root of both. */
    method Union(x: int, y: int)
      requires Valid() && 0 <= x < |parent| && 0 <= y < |parent|
      modifies this
      ensures Valid() && |parent| == old(|parent|) && |root| == old(|root|)
      ensures forall z :: 0 <= z < |root| ==>
        root[z] == if old(root[z]) == old(root[y]) then old(root[x]) else old(root[z])
    {
      hide Forest;
      var rootX := Find(x);
      var rootY := Find(y);
      ForestAt(parent, root, dist, x);
      if rootX != rootY {
        Hook(parent, root, dist, rootX, rootY);
        ghost var r0 := root;
        parent := parent[rootY := rootX];
        root := Merge(r0, rootX, rootY);
        dist := Deepen(dist, r0, rootY);
      }
    }
  }
}
