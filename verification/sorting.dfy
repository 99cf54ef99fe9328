/** Python's `list.sort(key=f, reverse=True)`: a stable sort into
    non-increasing key order. Elements with equal keys keep their original
    relative order, which `reverse=True` does not disturb. */
module Sorting {

  /** Keys never increase along `s`. */
  ghost predicate SortedDesc<T>(s: seq<T>, key: T -> real) {
    forall i, j :: 0 <= i < j < |s| ==> key(s[i]) >= key(s[j])
  }

  /** The elements of `s` whose key is `k`, in their order in `s`. */
  function WithKey<T>(s: seq<T>, key: T -> real, k: real): (r: seq<T>)
    ensures |r| <= |s|
    ensures forall x :: x in r ==> x in s && key(x) == k
  {
    if |s| == 0 then []
    else (if key(s[0]) == k then [s[0]] else []) + WithKey(s[1..], key, k)
  }

  /** `x` placed before the first element whose key is not larger than its
      own. */
  function Insert<T>(x: T, s: seq<T>, key: T -> real): (r: seq<T>)
    ensures |r| == |s| + 1
  {
    if |s| == 0 || key(x) >= key(s[0]) then [x] + s
    else [s[0]] + Insert(x, s[1..], key)
  }

  /** Insertion sort, inserting each element ahead of the equal keys of the
      elements after it. */
  function SortDesc<T>(s: seq<T>, key: T -> real): (r: seq<T>)
    ensures |r| == |s|
  {
    if |s| == 0 then [] else Insert(s[0], SortDesc(s[1..], key), key)
  }

  lemma {:induction false} InsertElements<T>(x: T, s: seq<T>, key: T -> real)
    ensures multiset(Insert(x, s, key)) == multiset(s) + multiset{x}
    decreases |s|
  {
    if |s| > 0 && key(x) < key(s[0]) {
      InsertElements(x, s[1..], key);
      assert s == [s[0]] + s[1..];
    }
  }

  lemma {:induction false} InsertSorted<T>(x: T, s: seq<T>, key: T -> real)
    requires SortedDesc(s, key)
    ensures SortedDesc(Insert(x, s, key), key)
    decreases |s|
  {
    if |s| > 0 && key(x) < key(s[0]) {
      var rest := Insert(x, s[1..], key);
      InsertSorted(x, s[1..], key);
      forall j | 0 <= j < |rest|
        ensures key(s[0]) >= key(rest[j])
      {
        InsertElements(x, s[1..], key);
        assert rest[j] in multiset(rest);
        if rest[j] != x {
          assert rest[j] in multiset(s[1..]);
          var m :| 0 <= m < |s[1..]| && s[1..][m] == rest[j];
          assert s[m + 1] == rest[j];
        }
      }
      assert Insert(x, s, key) == [s[0]] + rest;
    }
  }

  /** The keys equal to `x`'s are unaffected by the elements `x` is moved
      past, since those all have larger keys. */
  lemma {:induction false} InsertWithKey<T>(x: T, s: seq<T>, key: T -> real, k: real)
    ensures WithKey(Insert(x, s, key), key, k) == (if key(x) == k then [x] else []) + WithKey(s, key, k)
    decreases |s|
  {
    if |s| == 0 || key(x) >= key(s[0]) {
      assert ([x] + s)[1..] == s;
    } else {
      InsertWithKey(x, s[1..], key, k);
      assert ([s[0]] + Insert(x, s[1..], key))[1..] == Insert(x, s[1..], key);
    }
  }

  /** The result is ordered, holds the same elements, and for every key
      value lists the elements with that key in their original order. */
  lemma {:induction false} SortDescCorrect<T>(s: seq<T>, key: T -> real)
    ensures SortedDesc(SortDesc(s, key), key)
    ensures multiset(SortDesc(s, key)) == multiset(s)
    ensures forall k :: WithKey(SortDesc(s, key), key, k) == WithKey(s, key, k)
    decreases |s|
  {
    if |s| > 0 {
      var rest := SortDesc(s[1..], key);
      SortDescCorrect(s[1..], key);
      InsertSorted(s[0], rest, key);
      InsertElements(s[0], rest, key);
      assert s == [s[0]] + s[1..];
      forall k
        ensures WithKey(SortDesc(s, key), key, k) == WithKey(s, key, k)
      {
        InsertWithKey(s[0], rest, key, k);
      }
    }
  }

  /** Sorting is idempotent: an ordered list is returned unchanged. */
  lemma {:induction false} SortDescOfSorted<T>(s: seq<T>, key: T -> real)
    requires SortedDesc(s, key)
    ensures SortDesc(s, key) == s
    decreases |s|
  {
    if |s| > 0 {
      SortDescOfSorted(s[1..], key);
      assert SortDesc(s[1..], key) == s[1..];
      if |s| > 1 {
        assert key(s[0]) >= key(s[1]);
      }
    }
  }

  /** The first `n` elements of an ordered list are ordered, and none of
      the elements left out has a larger key than one kept. */
  lemma PrefixOfSorted<T>(s: seq<T>, key: T -> real, n: nat)
    requires SortedDesc(s, key)
    requires n <= |s|
    ensures SortedDesc(s[..n], key)
    ensures multiset(s[..n]) <= multiset(s)
    ensures forall x, y :: x in multiset(s) - multiset(s[..n]) && y in s[..n] ==> key(y) >= key(x)
  {
    var p := s[..n];
    assert s == p + s[n..];
    assert multiset(s) == multiset(p) + multiset(s[n..]);
    forall x, y | x in multiset(s) - multiset(p) && y in p
      ensures key(y) >= key(x)
    {
      assert x in multiset(s[n..]);
      var j :| 0 <= j < |s[n..]| && s[n..][j] == x;
      var i :| 0 <= i < n && p[i] == y;
      assert s[i] == y && s[n + j] == x;
    }
  }

  /** Cutting a list keeps, for every key value, a prefix of the elements
      with that key. */
  lemma {:induction false} WithKeyPrefix<T>(s: seq<T>, key: T -> real, k: real, n: nat)
    requires n <= |s|
    ensures WithKey(s[..n], key, k) <= WithKey(s, key, k)
    decreases n
  {
    if n > 0 {
      WithKeyPrefix(s[1..], key, k, n - 1);
      assert s[..n][1..] == s[1..][..n - 1];
    }
  }
}
