/** Python's `sorted(xs, key=..., reverse=True)`: a stable sort into descending
    key order. Elements with equal keys keep their original relative order. */
module StableSort {

  /** Insert `x` in front of the first element whose key is not larger. */
  function InsertDesc<T>(x: T, ys: seq<T>, key: T -> int): (r: seq<T>)
    ensures multiset(r) == multiset(ys) + multiset{x}
    ensures |r| == |ys| + 1
    decreases |ys|
  {
    if ys == [] || key(x) >= key(ys[0]) then [x] + ys
    else
      assert ys == [ys[0]] + ys[1..];
      [ys[0]] + InsertDesc(x, ys[1..], key)
  }

  function SortDesc<T>(xs: seq<T>, key: T -> int): (r: seq<T>)
    ensures multiset(r) == multiset(xs)
    ensures |r| == |xs|
    decreases |xs|
  {
    if xs == [] then []
    else
      assert xs == [xs[0]] + xs[1..];
      InsertDesc(xs[0], SortDesc(xs[1..], key), key)
  }

  predicate IsDescending<T>(s: seq<T>, key: T -> int) {
    forall i, j :: 0 <= i < j < |s| ==> key(s[i]) >= key(s[j])
  }

  /** The elements of `s` whose key is `k`, in order. */
  function WithKey<T>(s: seq<T>, key: T -> int, k: int): seq<T>
    decreases |s|
  {
    if s == [] then []
    else (if key(s[0]) == k then [s[0]] else []) + WithKey(s[1..], key, k)
  }

  lemma {:induction false} InsertDescSorted<T>(x: T, ys: seq<T>, key: T -> int)
    requires IsDescending(ys, key)
    ensures IsDescending(InsertDesc(x, ys, key), key)
    decreases |ys|
  {
    if ys != [] && key(x) < key(ys[0]) {
      InsertDescSorted(x, ys[1..], key);
      var r := InsertDesc(x, ys, key);
      var t := InsertDesc(x, ys[1..], key);
      assert r == [ys[0]] + t;
      forall i | 0 <= i < |t| ensures key(t[i]) <= key(ys[0]) {
        assert t[i] in multiset(t);
        assert t[i] in multiset(ys[1..]) + multiset{x};
        if t[i] in multiset(ys[1..]) {
          var m :| 0 <= m < |ys[1..]| && ys[1..][m] == t[i];
          assert ys[m + 1] == t[i];
        }
      }
    }
  }

  lemma {:induction false} InsertDescWithKey<T>(x: T, ys: seq<T>, key: T -> int, k: int)
    ensures WithKey(InsertDesc(x, ys, key), key, k) ==
            (if key(x) == k then [x] else []) + WithKey(ys, key, k)
    decreases |ys|
  {
    var mx: seq<T> := if key(x) == k then [x] else [];
    if ys == [] || key(x) >= key(ys[0]) {
      var r := [x] + ys;
      assert r[0] == x && r[1..] == ys;
    } else {
      var t := InsertDesc(x, ys[1..], key);
      InsertDescWithKey(x, ys[1..], key, k);
      var r := [ys[0]] + t;
      assert r[0] == ys[0] && r[1..] == t;
      var my: seq<T> := if key(ys[0]) == k then [ys[0]] else [];
      assert WithKey(r, key, k) == my + WithKey(t, key, k);
      assert WithKey(ys, key, k) == my + WithKey(ys[1..], key, k);
      assert my == [] || mx == [];
      assert my + (mx + WithKey(ys[1..], key, k)) == mx + (my + WithKey(ys[1..], key, k));
    }
  }

  /** The sort orders by descending key. */
  lemma {:induction false} SortDescSorted<T>(xs: seq<T>, key: T -> int)
    ensures IsDescending(SortDesc(xs, key), key)
    decreases |xs|
  {
    if xs != [] {
      SortDescSorted(xs[1..], key);
      InsertDescSorted(xs[0], SortDesc(xs[1..], key), key);
    }
  }

  /** The sort is stable: for each key, its elements keep their input order. */
  lemma {:induction false} SortDescStable<T>(xs: seq<T>, key: T -> int, k: int)
    ensures WithKey(SortDesc(xs, key), key, k) == WithKey(xs, key, k)
    decreases |xs|
  {
    if xs != [] {
      SortDescStable(xs[1..], key, k);
      SortDescSorted(xs[1..], key);
      InsertDescWithKey(xs[0], SortDesc(xs[1..], key), key, k);
    }
  }
  /** No two elements share a key. */
  predicate DistinctKeys<T>(s: seq<T>, key: T -> int) {
    forall i, j :: 0 <= i < j < |s| ==> key(s[i]) != key(s[j])
  }

  lemma DistinctTail<T>(ys: seq<T>, key: T -> int)
    requires ys != [] && DistinctKeys(ys, key)
    ensures DistinctKeys(ys[1..], key)
    ensures forall y :: y in ys[1..] ==> key(y) != key(ys[0])
  {
    forall i, j | 0 <= i < j < |ys[1..]| ensures key(ys[1..][i]) != key(ys[1..][j]) {
      assert ys[1..][i] == ys[i + 1] && ys[1..][j] == ys[j + 1];
    }
    forall y | y in ys[1..] ensures key(y) != key(ys[0]) {
      var m :| 0 <= m < |ys[1..]| && ys[1..][m] == y;
      assert ys[m + 1] == y;
    }
  }

  lemma {:induction false} InsertDescDistinct<T>(x: T, ys: seq<T>, key: T -> int)
    requires DistinctKeys(ys, key) && forall y :: y in ys ==> key(y) != key(x)
    ensures DistinctKeys(InsertDesc(x, ys, key), key)
    decreases |ys|
  {
    if ys != [] && key(x) < key(ys[0]) {
      DistinctTail(ys, key);
      InsertDescDistinct(x, ys[1..], key);
      var t := InsertDesc(x, ys[1..], key);
      assert InsertDesc(x, ys, key) == [ys[0]] + t;
      forall i | 0 <= i < |t| ensures key(t[i]) != key(ys[0]) {
        assert t[i] in multiset(t);
        assert t[i] in multiset(ys[1..]) + multiset{x};
      }
    } else {
      var r := [x] + ys;
      forall i, j | 0 <= i < j < |r| ensures key(r[i]) != key(r[j]) {
        assert r[j] == ys[j - 1];
        if i > 0 {
          assert r[i] == ys[i - 1];
        }
      }
    }
  }

  /** Sorting keeps the keys distinct. */
  lemma {:induction false} SortDescDistinct<T>(xs: seq<T>, key: T -> int)
    requires DistinctKeys(xs, key)
    ensures DistinctKeys(SortDesc(xs, key), key)
    decreases |xs|
  {
    if xs != [] {
      DistinctTail(xs, key);
      SortDescDistinct(xs[1..], key);
      var t := SortDesc(xs[1..], key);
      forall y | y in t ensures key(y) != key(xs[0]) {
        assert y in multiset(t);
      }
      InsertDescDistinct(xs[0], t, key);
    }
  }
}
