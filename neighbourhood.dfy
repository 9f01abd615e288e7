/**
 * The coordinate sets of ParticleWrapper (src/particleRemoval.js:4-180) and the
 * neighbour rule of its addNeighbour. A JavaScript Set iterates in insertion order,
 * which the later stable sort depends on, so a set is a sequence without repeats and
 * Set.add appends only what is absent.
 */
module Neighbourhood {
  import opened Helper

  predicate Distinct<T(==)>(s: seq<T>)
  {
    forall i, j :: 0 <= i < j < |s| ==> s[i] != s[j]
  }

  /** Set.add: x becomes a member, the order of the others is kept. */
  function Add(s: seq<Coord>, x: Coord): (r: seq<Coord>)
    ensures forall y :: y in r <==> y in s || y == x
    ensures Distinct(s) ==> Distinct(r)
    ensures |s| <= |r| <= |s| + 1 && r[..|s|] == s
  {
    if x in s then s else s + [x]
  }

  /** Set.add for each pixel in turn. */
  function AddAll(s: seq<Coord>, xs: seq<Coord>): seq<Coord>
    decreases |xs|
  {
    if xs == [] then s else AddAll(Add(s, xs[0]), xs[1..])
  }

  lemma AddAllCons(s: seq<Coord>, x: Coord, xs: seq<Coord>)
    ensures AddAll(s, [x] + xs) == AddAll(Add(s, x), xs)
  {
    assert ([x] + xs)[1..] == xs;
  }

  /** Adding pixels keeps what was there, in place, adds exactly the new pixels and no repeat. */
  lemma AddAllSpec(s: seq<Coord>, xs: seq<Coord>)
    ensures forall y :: y in AddAll(s, xs) <==> y in s || y in xs
    ensures Distinct(s) ==> Distinct(AddAll(s, xs))
    ensures |s| <= |AddAll(s, xs)| && AddAll(s, xs)[..|s|] == s
  {
    AddAllMembers(s, xs);
    if Distinct(s) {
      AddAllDistinct(s, xs);
    }
    AddAllPrefix(s, xs);
  }

  lemma {:induction false} AddAllMembers(s: seq<Coord>, xs: seq<Coord>)
    ensures forall y :: y in AddAll(s, xs) <==> y in s || y in xs
    decreases |xs|
  {
    if xs != [] {
      AddAllMembers(Add(s, xs[0]), xs[1..]);
      assert xs == [xs[0]] + xs[1..];
    }
  }

  lemma {:induction false} AddAllDistinct(s: seq<Coord>, xs: seq<Coord>)
    requires Distinct(s)
    ensures Distinct(AddAll(s, xs))
    decreases |xs|
  {
    hide Distinct;
    if xs != [] {
      AddAllDistinct(Add(s, xs[0]), xs[1..]);
    }
  }

  lemma {:induction false} AddAllPrefix(s: seq<Coord>, xs: seq<Coord>)
    ensures |s| <= |AddAll(s, xs)| && AddAll(s, xs)[..|s|] == s
    decreases |xs|
  {
    hide Distinct;
    if xs != [] {
      var s' := Add(s, xs[0]);
      AddAllPrefix(s', xs[1..]);
      var t := AddAll(s', xs[1..]);
      assert t[..|s|] == t[..|s'|][..|s|];
    }
  }

  /** Adding one more pixel at the end of the list is one more Set.add. */
  lemma {:induction false} AddAllSnoc(s: seq<Coord>, xs: seq<Coord>, x: Coord)
    ensures AddAll(s, xs + [x]) == Add(AddAll(s, xs), x)
    decreases |xs|
  {
    if xs == [] {
      assert [x][1..] == [];
    } else {
      assert (xs + [x])[1..] == xs[1..] + [x];
      AddAllSnoc(Add(s, xs[0]), xs[1..], x);
    }
  }

  /** c lies on an h × w grid. */
  predicate InRange(c: Coord, h: int, w: int)
  {
    0 <= c.x < w && 0 <= c.y < h
  }

  /** a and b are 4-neighbours. */
  predicate Adjacent4(a: Coord, b: Coord)
  {
    (a.x == b.x && (a.y == b.y + 1 || a.y + 1 == b.y)) || (a.y == b.y && (a.x == b.x + 1 || a.x + 1 == b.x))
  }

  /** The four candidates of addNeighbour, each null when its guard fails. */
  function Left(c: Coord): Option<Coord>
  {
    if c.x - 1 >= 0 then Some(Coord(c.x - 1, c.y)) else None
  }

  function Right(c: Coord, w: int): Option<Coord>
  {
    if c.x + 1 < w then Some(Coord(c.x + 1, c.y)) else None
  }

  function Top(c: Coord): Option<Coord>
  {
    if c.y - 1 >= 0 then Some(Coord(c.x, c.y - 1)) else None
  }

  function Bottom(c: Coord, h: int): Option<Coord>
  {
    if c.y + 1 < h then Some(Coord(c.x, c.y + 1)) else None
  }

  predicate Candidate(c: Coord, v: Coord, h: int, w: int)
  {
    Left(v) == Some(c) || Right(v, w) == Some(c) || Top(v) == Some(c) || Bottom(v, h) == Some(c)
  }

  /** A candidate is added unless it is already a neighbour, visited or excluded. */
  function Offer(nb: seq<Coord>, o: Option<Coord>, vis: seq<Coord>, exc: seq<Coord>): (r: seq<Coord>)
    ensures |nb| <= |r| && r[..|nb|] == nb
  {
    if o.Some? && o.value !in nb && o.value !in vis && o.value !in exc then nb + [o.value] else nb
  }

  /** One visited pixel: left, right, top, bottom, in that order. */
  function Around(nb: seq<Coord>, v: Coord, vis: seq<Coord>, exc: seq<Coord>, h: int, w: int): (r: seq<Coord>)
    ensures |nb| <= |r|
  {
    Offer(Offer(Offer(Offer(nb, Left(v), vis, exc), Right(v, w), vis, exc), Top(v), vis, exc), Bottom(v, h), vis, exc)
  }

  /** The neighbour set after treating the pixels vs in order. */
  function Spread(nb: seq<Coord>, vs: seq<Coord>, vis: seq<Coord>, exc: seq<Coord>, h: int, w: int): (r: seq<Coord>)
    ensures |nb| <= |r|
  {
    if vs == [] then nb else Around(Spread(nb, vs[..|vs| - 1], vis, exc, h, w), vs[|vs| - 1], vis, exc, h, w)
  }

  lemma OfferSpec(nb: seq<Coord>, o: Option<Coord>, vis: seq<Coord>, exc: seq<Coord>)
    ensures Offer(nb, o, vis, exc)[..|nb|] == nb
    ensures Distinct(nb) ==> Distinct(Offer(nb, o, vis, exc))
    ensures forall c :: c in Offer(nb, o, vis, exc) <==> c in nb || (o == Some(c) && c !in vis && c !in exc)
  {
  }

  lemma AroundPrefix(nb: seq<Coord>, v: Coord, vis: seq<Coord>, exc: seq<Coord>, h: int, w: int)
    ensures Around(nb, v, vis, exc, h, w)[..|nb|] == nb
  {
    var n1 := Offer(nb, Left(v), vis, exc);
    var n2 := Offer(n1, Right(v, w), vis, exc);
    var n3 := Offer(n2, Top(v), vis, exc);
    var n4 := Offer(n3, Bottom(v, h), vis, exc);
    hide Offer;
    PrefixTrans(nb, n1, n2);
    PrefixTrans(nb, n2, n3);
    PrefixTrans(nb, n3, n4);
  }

  lemma PrefixTrans<T>(a: seq<T>, b: seq<T>, c: seq<T>)
    requires |a| <= |b| <= |c| && b[..|a|] == a && c[..|b|] == b
    ensures c[..|a|] == a
  {
    assert c[..|a|] == c[..|b|][..|a|];
  }

  lemma AroundDistinct(nb: seq<Coord>, v: Coord, vis: seq<Coord>, exc: seq<Coord>, h: int, w: int)
    requires Distinct(nb)
    ensures Distinct(Around(nb, v, vis, exc, h, w))
  {
    var n1 := Offer(nb, Left(v), vis, exc);
    var n2 := Offer(n1, Right(v, w), vis, exc);
    var n3 := Offer(n2, Top(v), vis, exc);
    OfferSpec(nb, Left(v), vis, exc);
    OfferSpec(n1, Right(v, w), vis, exc);
    OfferSpec(n2, Top(v), vis, exc);
    OfferSpec(n3, Bottom(v, h), vis, exc);
  }

  lemma AroundMembers(nb: seq<Coord>, v: Coord, vis: seq<Coord>, exc: seq<Coord>, h: int, w: int)
    ensures forall c :: c in Around(nb, v, vis, exc, h, w) <==> c in nb || (Candidate(c, v, h, w) && c !in vis && c !in exc)
  {
    var n1 := Offer(nb, Left(v), vis, exc);
    var n2 := Offer(n1, Right(v, w), vis, exc);
    var n3 := Offer(n2, Top(v), vis, exc);
    OfferSpec(nb, Left(v), vis, exc);
    OfferSpec(n1, Right(v, w), vis, exc);
    OfferSpec(n2, Top(v), vis, exc);
    OfferSpec(n3, Bottom(v, h), vis, exc);
  }

  /** addNeighbour keeps the old neighbours as a prefix and adds no repeats. */
  lemma {:induction false} SpreadPrefix(nb: seq<Coord>, vs: seq<Coord>, vis: seq<Coord>, exc: seq<Coord>, h: int, w: int)
    ensures Spread(nb, vs, vis, exc, h, w)[..|nb|] == nb
    ensures Distinct(nb) ==> Distinct(Spread(nb, vs, vis, exc, h, w))
  {
    if vs != [] {
      var n := |vs| - 1;
      var r0 := Spread(nb, vs[..n], vis, exc, h, w);
      SpreadPrefix(nb, vs[..n], vis, exc, h, w);
      AroundPrefix(r0, vs[n], vis, exc, h, w);
      if Distinct(nb) {
        AroundDistinct(r0, vs[n], vis, exc, h, w);
      }
      var r := Spread(nb, vs, vis, exc, h, w);
      assert r[..|nb|] == r[..|r0|][..|nb|];
    }
  }

  /** c is a candidate of one of the pixels vs. */
  predicate SomeCandidate(c: Coord, vs: seq<Coord>, h: int, w: int)
  {
    vs != [] && (SomeCandidate(c, vs[..|vs| - 1], h, w) || Candidate(c, vs[|vs| - 1], h, w))
  }

  lemma {:induction false} SomeCandidateExists(c: Coord, vs: seq<Coord>, h: int, w: int)
    ensures SomeCandidate(c, vs, h, w) <==> exists k :: 0 <= k < |vs| && Candidate(c, vs[k], h, w)
  {
    if vs != [] {
      var n := |vs| - 1;
      SomeCandidateExists(c, vs[..n], h, w);
      if exists k :: 0 <= k < |vs| && Candidate(c, vs[k], h, w) {
        var k :| 0 <= k < |vs| && Candidate(c, vs[k], h, w);
        if k < n {
          assert vs[..n][k] == vs[k];
        }
      }
      if exists k :: 0 <= k < n && Candidate(c, vs[..n][k], h, w) {
        var k :| 0 <= k < n && Candidate(c, vs[..n][k], h, w);
        assert vs[k] == vs[..n][k];
      }
    }
  }

  /**
   * A coordinate ends up a neighbour exactly when it was one, or when it is a
   * candidate of some treated pixel and neither visited nor excluded.
   */
  lemma {:induction false} SpreadMembers(nb: seq<Coord>, vs: seq<Coord>, vis: seq<Coord>, exc: seq<Coord>, h: int, w: int)
    ensures forall c :: c in Spread(nb, vs, vis, exc, h, w) <==>
      c in nb || (c !in vis && c !in exc && SomeCandidate(c, vs, h, w))
  {
    if vs != [] {
      var n := |vs| - 1;
      SpreadMembers(nb, vs[..n], vis, exc, h, w);
      AroundMembers(Spread(nb, vs[..n], vis, exc, h, w), vs[n], vis, exc, h, w);
    }
  }

  /** The candidates of an on-grid pixel are exactly its on-grid 4-neighbours. */
  lemma CandidateAdjacent(c: Coord, v: Coord, h: int, w: int)
    requires InRange(v, h, w)
    ensures Candidate(c, v, h, w) <==> InRange(c, h, w) && Adjacent4(c, v)
  {
  }

  /**
   * With every visited pixel on the grid and no neighbours before, the neighbour set is
   * exactly the on-grid 4-neighbours of visited pixels that are neither visited nor
   * excluded, each once.
   */
  lemma NeighboursExactly(vis: seq<Coord>, exc: seq<Coord>, h: int, w: int)
    requires forall k :: 0 <= k < |vis| ==> InRange(vis[k], h, w)
    ensures Distinct(Spread([], vis, vis, exc, h, w))
    ensures forall c :: c in Spread([], vis, vis, exc, h, w) <==>
      InRange(c, h, w) && c !in vis && c !in exc && exists k :: 0 <= k < |vis| && Adjacent4(c, vis[k])
  {
    SpreadPrefix([], vis, vis, exc, h, w);
    SpreadMembers([], vis, vis, exc, h, w);
    forall c
      ensures c in Spread([], vis, vis, exc, h, w) <==>
        InRange(c, h, w) && c !in vis && c !in exc && exists k :: 0 <= k < |vis| && Adjacent4(c, vis[k])
    {
      SomeCandidateExists(c, vis, h, w);
      if SomeCandidate(c, vis, h, w) {
        var k :| 0 <= k < |vis| && Candidate(c, vis[k], h, w);
        CandidateAdjacent(c, vis[k], h, w);
      }
      if InRange(c, h, w) && exists k :: 0 <= k < |vis| && Adjacent4(c, vis[k]) {
        var k :| 0 <= k < |vis| && Adjacent4(c, vis[k]);
        CandidateAdjacent(c, vis[k], h, w);
      }
    }
  }

  /** Neighbours of on-grid pixels stay on the grid. */
  lemma SpreadInRange(nb: seq<Coord>, vs: seq<Coord>, vis: seq<Coord>, exc: seq<Coord>, h: int, w: int)
    requires forall k :: 0 <= k < |nb| ==> InRange(nb[k], h, w)
    requires forall k :: 0 <= k < |vs| ==> InRange(vs[k], h, w)
    ensures forall k :: 0 <= k < |Spread(nb, vs, vis, exc, h, w)| ==> InRange(Spread(nb, vs, vis, exc, h, w)[k], h, w)
  {
    var r := Spread(nb, vs, vis, exc, h, w);
    SpreadMembers(nb, vs, vis, exc, h, w);
    forall i | 0 <= i < |r|
      ensures InRange(r[i], h, w)
    {
      assert r[i] in r;
      if r[i] !in nb {
        SomeCandidateExists(r[i], vs, h, w);
        var k :| 0 <= k < |vs| && Candidate(r[i], vs[k], h, w);
        CandidateAdjacent(r[i], vs[k], h, w);
      } else {
        var m :| 0 <= m < |nb| && nb[m] == r[i];
      }
    }
  }
}
