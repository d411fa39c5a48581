/** `Array.prototype.sort` with a numeric comparator `(a, b) => key(a) - key(b)`.
    The language requires that sort to be stable; the insertion sort below is
    stable by construction (an element is placed before the first element whose
    key is not smaller, so earlier elements stay ahead of later equal ones). */
module Sorting {

  ghost predicate SortedBy<T>(s: seq<T>, key: T -> int)
  {
    forall i, j :: 0 <= i < j < |s| ==> key(s[i]) <= key(s[j])
  }

  function Insert<T>(x: T, ys: seq<T>, key: T -> int): (r: seq<T>)
    ensures multiset(r) == multiset(ys) + multiset{x}
    ensures |r| == |ys| + 1
  {
    if |ys| == 0 || key(x) <= key(ys[0]) then [x] + ys
    else
      assert ys == [ys[0]] + ys[1..];
      [ys[0]] + Insert(x, ys[1..], key)
  }

  function SortBy<T>(xs: seq<T>, key: T -> int): (r: seq<T>)
    ensures |r| == |xs|
  {
    if |xs| == 0 then [] else Insert(xs[0], SortBy(xs[1..], key), key)
  }

  lemma {:induction false} InsertSorted<T>(x: T, ys: seq<T>, key: T -> int)
    requires SortedBy(ys, key)
    ensures SortedBy(Insert(x, ys, key), key)
  {
    if |ys| > 0 && key(x) > key(ys[0]) {
      InsertSorted(x, ys[1..], key);
      var r := Insert(x, ys, key);
      var t := Insert(x, ys[1..], key);
      assert r == [ys[0]] + t;
      forall k | 0 <= k < |t| ensures key(ys[0]) <= key(t[k]) {
        assert t[k] in multiset(t);
        assert t[k] in multiset(ys[1..]) || t[k] == x;
        if t[k] != x {
          var m :| 0 <= m < |ys[1..]| && ys[1..][m] == t[k];
          assert ys[m + 1] == t[k];
        }
      }
    }
  }

  /** The result of the sort is ordered by the key. */
  lemma {:induction false} SortBySorted<T>(xs: seq<T>, key: T -> int)
    ensures SortedBy(SortBy(xs, key), key)
  {
    if |xs| > 0 {
      SortBySorted(xs[1..], key);
      InsertSorted(xs[0], SortBy(xs[1..], key), key);
    }
  }

  /** The result of the sort holds exactly the elements it was given. */
  lemma {:induction false} SortByPermutation<T>(xs: seq<T>, key: T -> int)
    ensures multiset(SortBy(xs, key)) == multiset(xs)
  {
    if |xs| > 0 {
      SortByPermutation(xs[1..], key);
      assert xs == [xs[0]] + xs[1..];
    }
  }

  /** Both together: a sorted permutation. */
  lemma SortBySortedPermutation<T>(xs: seq<T>, key: T -> int)
    ensures SortedBy(SortBy(xs, key), key)
    ensures multiset(SortBy(xs, key)) == multiset(xs)
  {
    SortBySorted(xs, key);
    SortByPermutation(xs, key);
  }

  /** The elements of `s` whose key is `k`, in order. */
  function WithKey<T>(s: seq<T>, key: T -> int, k: int): seq<T>
  {
    if |s| == 0 then [] else (if key(s[0]) == k then [s[0]] else []) + WithKey(s[1..], key, k)
  }

  /** Inserting `x` puts it ahead of every element with the same key. */
  lemma {:induction false} InsertAhead<T>(x: T, ys: seq<T>, key: T -> int, k: int)
    ensures WithKey(Insert(x, ys, key), key, k) == (if key(x) == k then [x] else []) + WithKey(ys, key, k)
  {
    var r := Insert(x, ys, key);
    if |ys| > 0 && key(x) > key(ys[0]) {
      var y, t := ys[0], Insert(x, ys[1..], key);
      InsertAhead(x, ys[1..], key, k);
      assert r[0] == y && r[1..] == t;
      assert WithKey(r, key, k) == (if key(y) == k then [y] else []) + WithKey(t, key, k);
      assert WithKey(ys, key, k) == (if key(y) == k then [y] else []) + WithKey(ys[1..], key, k);
    } else {
      assert r[0] == x && r[1..] == ys;
    }
  }

  /** The sort is stable: the elements of any one key keep their input order. */
  lemma {:induction false} SortByStable<T>(xs: seq<T>, key: T -> int, k: int)
    ensures WithKey(SortBy(xs, key), key, k) == WithKey(xs, key, k)
  {
    if |xs| > 0 {
      SortByStable(xs[1..], key, k);
      InsertAhead(xs[0], SortBy(xs[1..], key), key, k);
    }
  }
}
