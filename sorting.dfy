/** `sorted(xs, key=k, reverse=True)`: Python's sort is stable, and with
    `reverse=True` it still keeps elements with equal keys in their original
    order. Modelled as an insertion sort that places each element before the
    first later element whose key is not greater. */
module Sorting {

  /** Keys never increase along `s`. */
  ghost predicate Descending<T>(s: seq<T>, key: T -> int) {
    forall i, j :: 0 <= i < j < |s| ==> key(s[i]) >= key(s[j])
  }

  /** The elements of `s` whose key is `k`, in order. */
  function WithKey<T>(s: seq<T>, key: T -> int, k: int): seq<T> {
    if s == [] then []
    else (if key(s[0]) == k then [s[0]] else []) + WithKey(s[1..], key, k)
  }

  function Insert<T>(x: T, s: seq<T>, key: T -> int): (r: seq<T>)
    ensures multiset(r) == multiset(s) + multiset{x}
    ensures |r| == |s| + 1
  {
    if s == [] || key(s[0]) <= key(x) then [x] + s
    else
      assert s == [s[0]] + s[1..];
      [s[0]] + Insert(x, s[1..], key)
  }

  function SortDesc<T>(s: seq<T>, key: T -> int): (r: seq<T>)
    ensures multiset(r) == multiset(s)
    ensures |r| == |s|
  {
    if s == [] then []
    else
      assert s == [s[0]] + s[1..];
      Insert(s[0], SortDesc(s[1..], key), key)
  }

  lemma {:induction false} InsertDescending<T>(x: T, s: seq<T>, key: T -> int)
    requires Descending(s, key)
    ensures Descending(Insert(x, s, key), key)
  {
    if s == [] || key(s[0]) <= key(x) {
    } else {
      InsertDescending(x, s[1..], key);
      var t := Insert(x, s[1..], key);
      assert Insert(x, s, key) == [s[0]] + t;
      forall j | 0 <= j < |t| ensures key(s[0]) >= key(t[j]) {
        assert t[j] in multiset(t);
        HeadBound(x, s, key, t[j]);
      }
      DescendingCons(s[0], t, key);
    }
  }

  /** The head of a descending sequence is no smaller than its other items,
      nor than an item with a smaller key. */
  lemma HeadBound<T>(x: T, s: seq<T>, key: T -> int, y: T)
    requires Descending(s, key) && s != [] && key(x) < key(s[0])
    requires y in multiset(s[1..]) + multiset{x}
    ensures key(s[0]) >= key(y)
  {
    if y in multiset(s[1..]) {
      var i :| 0 <= i < |s[1..]| && s[1..][i] == y;
      assert s[1..][i] == s[i + 1];
    }
  }

  /** An item no smaller than any item of a descending sequence may go first. */
  lemma DescendingCons<T>(x: T, t: seq<T>, key: T -> int)
    requires Descending(t, key) && forall j :: 0 <= j < |t| ==> key(x) >= key(t[j])
    ensures Descending([x] + t, key)
  {
    var r := [x] + t;
    forall i, j | 0 <= i < j < |r| ensures key(r[i]) >= key(r[j]) {
      assert r[j] == t[j - 1];
      if i > 0 { assert r[i] == t[i - 1]; }
    }
  }

  /** The sort orders by key, newest (largest) first. */
  lemma {:induction false} SortDescending<T>(s: seq<T>, key: T -> int)
    ensures Descending(SortDesc(s, key), key)
  {
    if s != [] {
      SortDescending(s[1..], key);
      InsertDescending(s[0], SortDesc(s[1..], key), key);
    }
  }

  lemma {:induction false} WithKeyAppend<T>(a: seq<T>, b: seq<T>, key: T -> int, k: int)
    ensures WithKey(a + b, key, k) == WithKey(a, key, k) + WithKey(b, key, k)
  {
    if a == [] {
      assert a + b == b;
    } else {
      var h := if key(a[0]) == k then [a[0]] else [];
      assert (a + b)[0] == a[0];
      assert (a + b)[1..] == a[1..] + b;
      assert WithKey(a + b, key, k) == h + WithKey(a[1..] + b, key, k);
      assert WithKey(a, key, k) == h + WithKey(a[1..], key, k);
      WithKeyAppend(a[1..], b, key, k);
    }
  }

  lemma {:induction false} InsertWithKey<T>(x: T, s: seq<T>, key: T -> int, k: int)
    ensures WithKey(Insert(x, s, key), key, k) ==
      (if key(x) == k then [x] else []) + WithKey(s, key, k)
  {
    if s == [] || key(s[0]) <= key(x) {
      assert Insert(x, s, key) == [x] + s;
      WithKeyCons(x, s, key, k);
    } else {
      var t := Insert(x, s[1..], key);
      var w := WithKey(s[1..], key, k);
      InsertWithKey(x, s[1..], key, k);
      assert Insert(x, s, key) == [s[0]] + t;
      WithKeyCons(s[0], t, key, k);
      assert s == [s[0]] + s[1..];
      WithKeyCons(s[0], s[1..], key, k);
      if key(x) == k {
        assert key(s[0]) != k;
        assert WithKey(t, key, k) == [x] + w;
        assert WithKey(Insert(x, s, key), key, k) == [x] + w;
        assert WithKey(s, key, k) == w;
      } else {
        assert WithKey(t, key, k) == w;
        assert WithKey(Insert(x, s, key), key, k) == WithKey([s[0]] + s[1..], key, k);
      }
    }
  }

  /** `WithKey` of a sequence that starts with `y`. */
  lemma WithKeyCons<T>(y: T, t: seq<T>, key: T -> int, k: int)
    ensures key(y) == k ==> WithKey([y] + t, key, k) == [y] + WithKey(t, key, k)
    ensures key(y) != k ==> WithKey([y] + t, key, k) == WithKey(t, key, k)
  {
    assert ([y] + t)[0] == y && ([y] + t)[1..] == t;
  }

  /** Stability: among elements with equal keys the original order is kept. */
  lemma {:induction false} SortStable<T>(s: seq<T>, key: T -> int, k: int)
    ensures WithKey(SortDesc(s, key), key, k) == WithKey(s, key, k)
  {
    if s != [] {
      SortStable(s[1..], key, k);
      InsertWithKey(s[0], SortDesc(s[1..], key), key, k);
    }
  }
}
