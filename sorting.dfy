/**
 * The stable sort that every stage relies on. The source sorts with
 * Array.prototype.sort and a comparator `key(a) - key(b)` over integer keys; since
 * ECMAScript 2019 that sort is stable, so its result is the unique permutation that
 * is ordered by key and keeps equal-key elements in their original order. SortBy
 * below is that permutation (an insertion sort), and the lemmas prove the three
 * facts that determine it.
 */
module Sorting {

  predicate SortedBy<T>(s: seq<T>, key: T -> int)
  {
    forall i, j :: 0 <= i < j < |s| ==> key(s[i]) <= key(s[j])
  }

  /** Inserts x after every element whose key is at most key(x). */
  function Insert<T>(x: T, s: seq<T>, key: T -> int): (r: seq<T>)
    ensures |r| == |s| + 1
  {
    if s == [] then [x]
    else if key(x) < key(s[0]) then [x] + s
    else [s[0]] + Insert(x, s[1..], key)
  }

  /** The stable sort of s by key. */
  function SortBy<T>(s: seq<T>, key: T -> int): (r: seq<T>)
    ensures |r| == |s|
  {
    if s == [] then [] else Insert(s[|s| - 1], SortBy(s[..|s| - 1], key), key)
  }

  /** The elements of s whose key is k, in their order in s. */
  function WithKey<T>(s: seq<T>, key: T -> int, k: int): seq<T>
  {
    if s == [] then []
    else WithKey(s[..|s| - 1], key, k) + (if key(s[|s| - 1]) == k then [s[|s| - 1]] else [])
  }

  lemma {:induction false} InsertMultiset<T>(x: T, s: seq<T>, key: T -> int)
    ensures multiset(Insert(x, s, key)) == multiset(s) + multiset{x}
  {
    if s != [] && key(x) >= key(s[0]) {
      InsertMultiset(x, s[1..], key);
      assert s == [s[0]] + s[1..];
    }
  }

  lemma {:induction false} InsertSorted<T>(x: T, s: seq<T>, key: T -> int)
    requires SortedBy(s, key)
    ensures SortedBy(Insert(x, s, key), key)
    ensures forall i :: 0 <= i < |Insert(x, s, key)| ==>
      Insert(x, s, key)[i] == x || Insert(x, s, key)[i] in s
  {
    if s != [] && key(x) >= key(s[0]) {
      InsertSorted(x, s[1..], key);
      var t := Insert(x, s[1..], key);
      forall i | 0 <= i < |t|
        ensures key(s[0]) <= key(t[i])
      {
        assert t[i] == x || t[i] in s[1..];
      }
      assert Insert(x, s, key) == [s[0]] + t;
    }
  }

  /** The sort result is ordered by key. */
  lemma {:induction false} SortBySorted<T>(s: seq<T>, key: T -> int)
    ensures SortedBy(SortBy(s, key), key)
  {
    if s != [] {
      SortBySorted(s[..|s| - 1], key);
      InsertSorted(s[|s| - 1], SortBy(s[..|s| - 1], key), key);
    }
  }

  /** The sort result is a permutation of its input. */
  lemma {:induction false} SortByPermutation<T>(s: seq<T>, key: T -> int)
    ensures multiset(SortBy(s, key)) == multiset(s)
  {
    if s != [] {
      var n := |s| - 1;
      SortByPermutation(s[..n], key);
      InsertMultiset(s[n], SortBy(s[..n], key), key);
      assert s == s[..n] + [s[n]];
    }
  }

  lemma {:induction false} WithKeyAppend<T>(s: seq<T>, t: seq<T>, key: T -> int, k: int)
    ensures WithKey(s + t, key, k) == WithKey(s, key, k) + WithKey(t, key, k)
  {
    if t == [] {
      assert s + t == s;
    } else {
      var n := |t| - 1;
      var last := if key(t[n]) == k then [t[n]] else [];
      assert (s + t)[..|s + t| - 1] == s + t[..n];
      assert (s + t)[|s + t| - 1] == t[n];
      assert WithKey(s + t, key, k) == WithKey(s + t[..n], key, k) + last;
      WithKeyAppend(s, t[..n], key, k);
      assert WithKey(t, key, k) == WithKey(t[..n], key, k) + last;
    }
  }

  lemma WithKeySingle<T>(x: T, key: T -> int, k: int)
    ensures WithKey([x], key, k) == if key(x) == k then [x] else []
  {
    assert [x][..0] == [];
  }

  /** Inserting x into a sorted sequence puts it after every element with its key. */
  lemma {:induction false} InsertWithKey<T>(x: T, s: seq<T>, key: T -> int, k: int)
    requires SortedBy(s, key)
    ensures WithKey(Insert(x, s, key), key, k) ==
      WithKey(s, key, k) + (if key(x) == k then [x] else [])
  {
    if s == [] {
      WithKeySingle(x, key, k);
      assert Insert(x, s, key) == [x];
    } else if key(x) < key(s[0]) {
      InsertFrontWithKey(x, s, key, k);
    } else {
      InsertWithKey(x, s[1..], key, k);
      InsertLaterWithKey(x, s, key, k);
    }
  }

  /** InsertWithKey when x goes in front of s. */
  lemma InsertFrontWithKey<T>(x: T, s: seq<T>, key: T -> int, k: int)
    requires SortedBy(s, key) && s != [] && key(x) < key(s[0])
    ensures WithKey(Insert(x, s, key), key, k) ==
      WithKey(s, key, k) + (if key(x) == k then [x] else [])
  {
    assert Insert(x, s, key) == [x] + s;
    WithKeyAppend([x], s, key, k);
    WithKeySingle(x, key, k);
    if key(x) == k {
      WithKeyNone(s, key, k);
    }
  }

  /** InsertWithKey when x goes after the head of s, from the same fact about the tail. */
  lemma InsertLaterWithKey<T>(x: T, s: seq<T>, key: T -> int, k: int)
    requires SortedBy(s, key) && s != [] && key(x) >= key(s[0])
    requires WithKey(Insert(x, s[1..], key), key, k) ==
      WithKey(s[1..], key, k) + (if key(x) == k then [x] else [])
    ensures WithKey(Insert(x, s, key), key, k) ==
      WithKey(s, key, k) + (if key(x) == k then [x] else [])
  {
    var t := s[1..];
    assert s == [s[0]] + t;
    var it := Insert(x, t, key);
    assert Insert(x, s, key) == [s[0]] + it;
    WithKeyAppend([s[0]], it, key, k);
    WithKeyAppend([s[0]], t, key, k);
  }

  lemma {:induction false} WithKeyNone<T>(s: seq<T>, key: T -> int, k: int)
    requires forall i :: 0 <= i < |s| ==> key(s[i]) != k
    ensures WithKey(s, key, k) == []
  {
    if s != [] {
      WithKeyNone(s[..|s| - 1], key, k);
    }
  }

  /** The sort is stable: the elements of one key keep their original order. */
  lemma {:induction false} SortByStable<T>(s: seq<T>, key: T -> int, k: int)
    ensures WithKey(SortBy(s, key), key, k) == WithKey(s, key, k)
  {
    if s != [] {
      var n := |s| - 1;
      SortByStable(s[..n], key, k);
      SortBySorted(s[..n], key);
      InsertWithKey(s[n], SortBy(s[..n], key), key, k);
    }
  }

  // ---------------------------------------------------------------------------
  // Counting, and the rank of the middle element
  // ---------------------------------------------------------------------------

  /** The number of elements of s that satisfy f. */
  function CountIf<T>(s: seq<T>, f: T -> bool): (n: nat)
    ensures n <= |s|
  {
    if s == [] then 0 else CountIf(s[..|s| - 1], f) + (if f(s[|s| - 1]) then 1 else 0)
  }

  /** Keys strictly below v, and strictly above v. */
  function Below<T>(key: T -> int, v: int): T -> bool
  {
    x => key(x) < v
  }

  function Above<T>(key: T -> int, v: int): T -> bool
  {
    x => key(x) > v
  }

  lemma {:induction false} CountIfAppend<T>(s: seq<T>, t: seq<T>, f: T -> bool)
    ensures CountIf(s + t, f) == CountIf(s, f) + CountIf(t, f)
    decreases |t|
  {
    if t == [] {
      assert s + t == s;
    } else {
      var n := |t| - 1;
      assert (s + t)[..|s + t| - 1] == s + t[..n];
      assert (s + t)[|s + t| - 1] == t[n];
      CountIfAppend(s, t[..n], f);
    }
  }

  lemma {:induction false} CountIfNone<T>(s: seq<T>, f: T -> bool)
    requires forall k :: 0 <= k < |s| ==> !f(s[k])
    ensures CountIf(s, f) == 0
  {
    if s != [] {
      CountIfNone(s[..|s| - 1], f);
    }
  }

  /** Counting does not depend on the order of the elements. */
  lemma {:induction false} CountIfPermutation<T>(s: seq<T>, t: seq<T>, f: T -> bool)
    requires multiset(s) == multiset(t)
    ensures CountIf(s, f) == CountIf(t, f)
    decreases |s|
  {
    if s == [] {
      assert |t| == |multiset(t)| == 0;
    } else {
      var n := |s| - 1;
      var x := s[n];
      assert s == s[..n] + [x];
      assert x in multiset(t);
      var i :| 0 <= i < |t| && t[i] == x;
      var rest := t[..i] + t[i + 1..];
      assert t == t[..i] + [x] + t[i + 1..];
      assert multiset(rest) == multiset(t) - multiset{x};
      assert multiset(s[..n]) == multiset(s) - multiset{x};
      CountIfPermutation(s[..n], rest, f);
      CountIfAppend(t[..i] + [x], t[i + 1..], f);
      CountIfAppend(t[..i], [x], f);
      CountIfAppend(t[..i], t[i + 1..], f);
      CountIfAppend(s[..n], [x], f);
      assert [x][..0] == [];
    }
  }

  /** Sorted by key, nothing from position mid on has a key below that of position mid. */
  lemma SortedBelowPrefix<T>(r: seq<T>, key: T -> int, mid: nat)
    requires SortedBy(r, key) && mid < |r|
    ensures CountIf(r, Below(key, key(r[mid]))) <= mid
  {
    var f := Below(key, key(r[mid]));
    var post := r[mid..];
    assert r == r[..mid] + post;
    hide CountIf;
    CountIfAppend(r[..mid], post, f);
    forall k | 0 <= k < |post|
      ensures !f(post[k])
    {
      assert post[k] == r[mid + k];
    }
    CountIfNone(post, f);
  }

  /** Sorted by key, nothing up to position mid has a key above that of position mid. */
  lemma SortedAboveSuffix<T>(r: seq<T>, key: T -> int, mid: nat)
    requires SortedBy(r, key) && mid < |r|
    ensures CountIf(r, Above(key, key(r[mid]))) <= |r| - 1 - mid
  {
    var f := Above(key, key(r[mid]));
    SortedNotAbove(r, key, mid);
    hide SortedBy, CountIf, Above;
    var pre := r[..mid + 1];
    assert r == pre + r[mid + 1..];
    CountIfAppend(pre, r[mid + 1..], f);
    forall k | 0 <= k < |pre|
      ensures !f(pre[k])
    {
      assert pre[k] == r[k];
    }
    CountIfNone(pre, f);
  }

  lemma SortedNotAbove<T>(r: seq<T>, key: T -> int, mid: nat)
    requires SortedBy(r, key) && mid < |r|
    ensures forall k :: 0 <= k <= mid ==> !Above(key, key(r[mid]))(r[k])
  {
    forall k | 0 <= k <= mid
      ensures key(r[k]) <= key(r[mid])
    {
      if k < mid {
        assert key(r[k]) <= key(r[mid]);
      }
    }
  }

  /**
   * The element in the middle of the stable sort of a non-empty s comes from s, at
   * most |s|/2 elements have a smaller key and at most |s|-1-|s|/2 a larger one.
   */
  lemma MiddleRank<T>(s: seq<T>, key: T -> int)
    requires |s| > 0
    ensures SortBy(s, key)[|s| / 2] in s
    ensures CountIf(s, Below(key, key(SortBy(s, key)[|s| / 2]))) <= |s| / 2
    ensures CountIf(s, Above(key, key(SortBy(s, key)[|s| / 2]))) <= |s| - 1 - |s| / 2
  {
    var r := SortBy(s, key);
    var mid := |s| / 2;
    SortBySorted(s, key);
    SortByPermutation(s, key);
    assert r[mid] in multiset(r);
    SortedBelowPrefix(r, key, mid);
    SortedAboveSuffix(r, key, mid);
    CountIfPermutation(s, r, Below(key, key(r[mid])));
    CountIfPermutation(s, r, Above(key, key(r[mid])));
  }
}
