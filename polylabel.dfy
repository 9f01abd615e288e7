/**
 * The priority queue of src/polylabel.js and the degenerate early return of
 * polylabel. The queue is a binary heap over an array: push appends and sifts up,
 * pop moves the last item to the root and sifts down, and both sifts shift items
 * along a path, holding the moving item aside and writing it once at the end. The
 * comparator of the cell queue, (a, b) => b.max - a.max, makes it a max-heap on
 * the integer key modelled here.
 */
module Polylabel {
  import opened Helper

  /** The cell queue's comparator on keys: negative when a must come before b. */
  function Compare(a: int, b: int): int
  {
    b - a
  }

  function Parent(c: nat): nat
    requires c > 0
  {
    (c - 1) / 2
  }

  /**
   * Every parent at index lo or beyond compares no later than each of its children,
   * that is, holds a key at least as large (Compare(child, parent) >= 0).
   */
  ghost predicate HeapFrom(s: seq<int>, lo: nat)
  {
    forall c :: 0 < c < |s| && lo <= Parent(c) ==> s[c] <= s[Parent(c)]
  }

  ghost predicate IsHeap(s: seq<int>)
  {
    HeapFrom(s, 0)
  }

  /** In a heap the root compares no later than any item: it holds the largest key. */
  lemma {:induction false} RootIsMax(s: seq<int>, k: nat)
    requires IsHeap(s) && k < |s|
    ensures s[k] <= s[0]
    decreases k
  {
    if k > 0 {
      RootIsMax(s, Parent(k));
    }
  }

  /**
   * The state of _up while item is held aside and pos is the open slot: every edge
   * outside pos is ordered, and the children of pos fit below item and below the
   * parent of pos.
   */
  ghost predicate UpInv(d: seq<int>, pos: nat, item: int)
  {
    && pos < |d|
    && (forall c :: 0 < c < |d| && c != pos ==> d[c] <= d[Parent(c)])
    && (forall c :: 0 < c < |d| && Parent(c) == pos ==> d[c] <= item)
    && (pos > 0 ==> forall c :: 0 < c < |d| && Parent(c) == pos ==> d[c] <= d[Parent(pos)])
  }

  lemma UpStep(d: seq<int>, pos: nat, item: int)
    requires UpInv(d, pos, item) && pos > 0 && d[Parent(pos)] < item
    ensures UpInv(d[pos := d[Parent(pos)]], Parent(pos), item)
  {
  }

  lemma UpDone(d: seq<int>, pos: nat, item: int)
    requires UpInv(d, pos, item) && (pos == 0 || item <= d[Parent(pos)])
    ensures IsHeap(d[pos := item])
  {
  }

  /**
   * The state of _down while item is held aside and pos is the open slot: every edge
   * from a parent in lo.. other than pos is ordered, and below lo's subtree root the
   * parent of pos bounds item and the children of pos.
   */
  ghost predicate DownInv(d: seq<int>, lo: nat, pos: nat, item: int)
  {
    && lo <= pos < |d|
    && (forall c :: 0 < c < |d| && lo <= Parent(c) && Parent(c) != pos ==> d[c] <= d[Parent(c)])
    && (pos > lo ==> item <= d[Parent(pos)])
    && (pos > lo ==> forall c :: 0 < c < |d| && Parent(c) == pos ==> d[c] <= d[Parent(pos)])
  }

  lemma DownStart(d: seq<int>, lo: nat)
    requires lo < |d| && HeapFrom(d, lo + 1)
    ensures DownInv(d, lo, lo, d[lo])
  {
  }

  lemma DownStep(d: seq<int>, lo: nat, pos: nat, item: int, child: nat)
    requires DownInv(d, lo, pos, item)
    requires child == 2 * pos + 1 || child == 2 * pos + 2
    requires child < |d| && d[2 * pos + 1] <= d[child]
    requires 2 * pos + 2 < |d| ==> d[2 * pos + 2] <= d[child]
    requires item < d[child]
    ensures DownInv(d[pos := d[child]], lo, child, item)
  {
    ChildrenOf(pos);
  }

  lemma DownDone(d: seq<int>, lo: nat, pos: nat, item: int)
    requires DownInv(d, lo, pos, item)
    requires 2 * pos + 1 < |d| ==> d[2 * pos + 1] <= item
    requires 2 * pos + 2 < |d| ==> d[2 * pos + 2] <= item
    ensures HeapFrom(d[pos := item], lo)
  {
    ChildrenOf(pos);
  }

  /** The children of slot p are 2p+1 and 2p+2. */
  lemma ChildrenOf(p: nat)
    ensures forall c :: 0 < c && Parent(c) == p ==> c == 2 * p + 1 || c == 2 * p + 2
  {
  }

  lemma UpdateMultiset(s: seq<int>, i: nat, v: int)
    requires i < |s|
    ensures multiset(s[i := v]) == multiset(s) - multiset{s[i]} + multiset{v}
  {
    assert s == s[..i] + [s[i]] + s[i + 1..];
    assert s[i := v] == s[..i] + [v] + s[i + 1..];
  }

  /** Moving the value at j into slot i, and the held item into slot j, keeps the multiset. */
  lemma SwapMultiset(d: seq<int>, i: nat, j: nat, item: int)
    requires i < |d| && j < |d| && i != j
    ensures multiset(d[i := d[j]][j := item]) == multiset(d[i := item])
  {
    var e := d[i := d[j]];
    UpdateMultiset(d, i, d[j]);
    UpdateMultiset(e, j, item);
    UpdateMultiset(d, i, item);
    assert e[j] == d[j];
  }

  class Queue {
    var data: seq<int>
    var length: nat

    ghost predicate Valid()
      reads this
    {
      length == |data| && IsHeap(data)
    }

    /** Heapifies the initial items bottom-up: _down on every inner node, last first. */
    constructor (init: seq<int>)
      ensures Valid()
      ensures multiset(data) == multiset(init)
    {
      data := init;
      length := |init|;
      new;
      if length > 0 {
        var i: int := length / 2 - 1;
        while i >= 0
          invariant -1 <= i < length
          invariant length == |data|
          invariant HeapFrom(data, i + 1)
          invariant multiset(data) == multiset(init)
        {
          Down(i);
          i := i - 1;
        }
      }
    }

    /** push: append the item and sift it up; length grows by one. */
    method Push(item: int)
      requires Valid()
      modifies this
      ensures Valid()
      ensures length == old(length) + 1
      ensures multiset(data) == old(multiset(data)) + multiset{item}
    {
      data := data + [item];
      length := length + 1;
      assert UpInv(data, length - 1, item);
      Up(length - 1);
    }

    /**
     * pop: on an empty queue returns undefined (None) and changes nothing; otherwise
     * removes and returns the root, which holds the largest key.
     */
    method Pop() returns (top: Option<int>)
      requires Valid()
      modifies this
      ensures Valid()
      ensures old(length) == 0 ==> top == None && data == old(data) && length == 0
      ensures old(length) > 0 ==>
        && top == Some(old(data)[0])
        && (forall k :: 0 <= k < old(length) ==> old(data)[k] <= top.value)
        && length == old(length) - 1
        && multiset(data) == old(multiset(data)) - multiset{top.value}
    {
      if length == 0 {
        return None;
      }
      forall k | 0 <= k < length
        ensures data[k] <= data[0]
      {
        RootIsMax(data, k);
      }
      var t := data[0];
      ghost var before := data;
      var bottom := data[|data| - 1];
      data := data[..|data| - 1];
      length := length - 1;
      assert before == data + [bottom];
      if length > 0 {
        assert HeapFrom(data, 0);
        UpdateMultiset(data, 0, bottom);
        data := data[0 := bottom];
        Down(0);
      }
      return Some(t);
    }

    /** peek: the root, or undefined (None) on an empty queue. */
    method Peek() returns (r: Option<int>)
      requires Valid()
      ensures length == 0 ==> r == None
      ensures length > 0 ==> r == Some(data[0])
      ensures r.Some? ==> forall k :: 0 <= k < length ==> data[k] <= r.value
    {
      if length == 0 {
        return None;
      }
      forall k | 0 <= k < length
        ensures data[k] <= data[0]
      {
        RootIsMax(data, k);
      }
      return Some(data[0]);
    }

    /**
     * _up: the item at pos moves towards the root past every parent it compares
     * before; those parents shift down one level.
     */
    method Up(pos0: nat)
      requires length == |data| && pos0 < |data| && UpInv(data, pos0, data[pos0])
      modifies this
      ensures length == old(length) && |data| == |old(data)|
      ensures IsHeap(data)
      ensures multiset(data) == old(multiset(data))
    {
      var item := data[pos0];
      var pos := pos0;
      while pos > 0
        invariant length == |data| == |old(data)|
        invariant UpInv(data, pos, item)
        invariant multiset(data[pos := item]) == old(multiset(data))
      {
        var parent := Parent(pos);
        var current := data[parent];
        if Compare(item, current) >= 0 {
          break;
        }
        UpStep(data, pos, item);
        SwapMultiset(data, pos, parent, item);
        data := data[pos := current];
        pos := parent;
      }
      UpDone(data, pos, item);
      data := data[pos := item];
    }

    /**
     * _down: the item at pos moves towards the leaves past every child that compares
     * before it (the better of the two children); those children shift up one level.
     */
    method Down(pos0: nat)
      requires length == |data| && pos0 < length
      requires HeapFrom(data, pos0 + 1)
      modifies this
      ensures length == old(length) && |data| == |old(data)|
      ensures HeapFrom(data, pos0)
      ensures multiset(data) == old(multiset(data))
    {
      var halfLength := length / 2;
      var item := data[pos0];
      var pos := pos0;
      DownStart(data, pos0);
      while pos < halfLength
        invariant length == |data| == |old(data)|
        invariant DownInv(data, pos0, pos, item)
        invariant multiset(data[pos := item]) == old(multiset(data))
      {
        var bestChild := 2 * pos + 1;
        var right := bestChild + 1;
        if right < length && Compare(data[right], data[bestChild]) < 0 {
          bestChild := right;
        }
        if Compare(data[bestChild], item) >= 0 {
          break;
        }
        DownStep(data, pos0, pos, item, bestChild);
        SwapMultiset(data, pos, bestChild, item);
        data := data[pos := data[bestChild]];
        pos := bestChild;
      }
      DownDone(data, pos0, pos, item);
      data := data[pos := item];
    }
  }

  // ---------------------------------------------------------------------------
  // polylabel: the degenerate early return
  // ---------------------------------------------------------------------------

  /** The bounding box of the outer ring. */
  datatype Box = Box(minX: int, minY: int, maxX: int, maxY: int)

  /**
   * What polylabel returns before its search: a corner with distance 0, the corner
   * (Infinity, Infinity) with distance 0 when the outer ring is empty, or nothing yet
   * (the branch-and-bound search, which this model leaves out).
   */
  datatype Start = Corner(x: int, y: int, distance: real) | InfiniteCorner | Search(box: Box)

  /** The x coordinates and the y coordinates of a ring, in order. */
  function Xs(ring: seq<Coord>): (s: seq<int>)
    ensures |s| == |ring| && forall k :: 0 <= k < |ring| ==> s[k] == ring[k].x
  {
    seq(|ring|, k requires 0 <= k < |ring| => ring[k].x)
  }

  function Ys(ring: seq<Coord>): (s: seq<int>)
    ensures |s| == |ring| && forall k :: 0 <= k < |ring| ==> s[k] == ring[k].y
  {
    seq(|ring|, k requires 0 <= k < |ring| => ring[k].y)
  }

  function MinOf(s: seq<int>): int
    requires s != []
  {
    if |s| == 1 then s[0]
    else var m := MinOf(s[..|s| - 1]); if s[|s| - 1] < m then s[|s| - 1] else m
  }

  function MaxOf(s: seq<int>): int
    requires s != []
  {
    if |s| == 1 then s[0]
    else var m := MaxOf(s[..|s| - 1]); if s[|s| - 1] > m then s[|s| - 1] else m
  }

  /** MinOf is the least element and MaxOf the greatest, and both occur in s. */
  lemma {:induction false} MinMaxOf(s: seq<int>)
    requires s != []
    ensures forall k :: 0 <= k < |s| ==> MinOf(s) <= s[k] <= MaxOf(s)
    ensures MinOf(s) in s && MaxOf(s) in s
  {
    if |s| > 1 {
      var p := s[..|s| - 1];
      MinMaxOf(p);
      assert s == p + [s[|s| - 1]];
    }
  }

  /** The box the source's loop computes, by its four spec functions. */
  function BoxOf(ring: seq<Coord>): Box
    requires ring != []
  {
    Box(MinOf(Xs(ring)), MinOf(Ys(ring)), MaxOf(Xs(ring)), MaxOf(Ys(ring)))
  }

  /** The loop over polygon[0] that tracks the smallest and largest coordinates. */
  method BoundingBox(ring: seq<Coord>) returns (box: Option<Box>)
    ensures ring == [] ==> box == None
    ensures ring != [] ==> box == Some(BoxOf(ring))
  {
    if ring == [] {
      return None;
    }
    var b := Box(ring[0].x, ring[0].y, ring[0].x, ring[0].y);
    var i := 1;
    assert Xs(ring[..1]) == [ring[0].x] && Ys(ring[..1]) == [ring[0].y];
    while i < |ring|
      invariant 1 <= i <= |ring|
      invariant b == BoxOf(ring[..i])
    {
      var p := ring[i];
      assert Xs(ring[..i + 1])[..i] == Xs(ring[..i]) && Ys(ring[..i + 1])[..i] == Ys(ring[..i]);
      if p.x < b.minX { b := b.(minX := p.x); }
      if p.y < b.minY { b := b.(minY := p.y); }
      if p.x > b.maxX { b := b.(maxX := p.x); }
      if p.y > b.maxY { b := b.(maxY := p.y); }
      i := i + 1;
    }
    assert ring[..i] == ring;
    return Some(b);
  }

  /** The box bounds every vertex and each of its four sides touches one. */
  lemma BoxOfBounds(ring: seq<Coord>)
    requires ring != []
    ensures forall k :: 0 <= k < |ring| ==>
      BoxOf(ring).minX <= ring[k].x <= BoxOf(ring).maxX && BoxOf(ring).minY <= ring[k].y <= BoxOf(ring).maxY
    ensures BoxOf(ring).minX in Xs(ring) && BoxOf(ring).maxX in Xs(ring)
    ensures BoxOf(ring).minY in Ys(ring) && BoxOf(ring).maxY in Ys(ring)
  {
    MinMaxOf(Xs(ring));
    MinMaxOf(Ys(ring));
  }

  /**
   * The start of polylabel(polygon, precision): with cellSize = max(precision,
   * min(width, height)), a cell size equal to precision returns the box corner with
   * distance 0; an empty outer ring leaves the corner at (Infinity, Infinity).
   */
  method PolylabelStart(polygon: seq<seq<Coord>>, precision: real) returns (r: Start)
    requires |polygon| >= 1
    ensures polygon[0] == [] <==> r == InfiniteCorner
    ensures polygon[0] != [] ==>
      var b := BoxOf(polygon[0]);
      var small := Min((b.maxX - b.minX) as real, (b.maxY - b.minY) as real);
      && (r.Corner? <==> small <= precision)
      && (r.Corner? ==> r == Corner(b.minX, b.minY, 0.0))
      && (r.Search? ==> r.box == b)
  {
    var box := BoundingBox(polygon[0]);
    if box == None {
      return InfiniteCorner;
    }
    var b := box.value;
    var width := (b.maxX - b.minX) as real;
    var height := (b.maxY - b.minY) as real;
    var cellSize := Max(precision, Min(width, height));
    if cellSize == precision {
      return Corner(b.minX, b.minY, 0.0);
    }
    return Search(b);
  }

  /** Math.min and Math.max on two reals. */
  function Min(a: real, b: real): (m: real)
    ensures m <= a && m <= b && (m == a || m == b)
  {
    if a < b then a else b
  }

  function Max(a: real, b: real): (m: real)
    ensures m >= a && m >= b && (m == a || m == b)
  {
    if a > b then a else b
  }
}
