/**
 Python's `sorted(xs, key=f)` and `xs.sort(key=f)` for a real-valued key:
 a stable sort, modelled as insertion sort. Stability is stated through
 `WithKey`: for every key value, the elements carrying it keep their
 relative order.
 */
module Sorting {

  predicate SortedBy<T>(s: seq<T>, key: T -> real)
  {
    forall i, j :: 0 <= i < j < |s| ==> key(s[i]) <= key(s[j])
  }

  /** The elements of `s` whose key is `k`, in their original order. */
  function WithKey<T>(s: seq<T>, key: T -> real, k: real): seq<T>
  {
    if |s| == 0 then []
    else WithKey(s[..|s| - 1], key, k) + (if key(s[|s| - 1]) == k then [s[|s| - 1]] else [])
  }

  lemma WithKeySnoc<T>(t: seq<T>, x: T, key: T -> real, k: real)
    ensures WithKey(t + [x], key, k) == WithKey(t, key, k) + (if key(x) == k then [x] else [])
  {
    assert (t + [x])[..|t|] == t;
  }

  /** Places `x` after every element of the sorted `t` whose key is not greater. */
  function Insert<T>(x: T, t: seq<T>, key: T -> real): seq<T>
  {
    if |t| == 0 then [x]
    else if key(x) < key(t[|t| - 1]) then Insert(x, t[..|t| - 1], key) + [t[|t| - 1]]
    else t + [x]
  }

  lemma {:induction false} InsertCount<T>(x: T, t: seq<T>, key: T -> real)
    ensures |Insert(x, t, key)| == |t| + 1
    ensures multiset(Insert(x, t, key)) == multiset(t) + multiset{x}
  {
    if |t| > 0 && key(x) < key(t[|t| - 1]) {
      InsertCount(x, t[..|t| - 1], key);
      assert t == t[..|t| - 1] + [t[|t| - 1]];
    }
  }

  lemma {:induction false} InsertSorted<T>(x: T, t: seq<T>, key: T -> real)
    requires SortedBy(t, key)
    ensures SortedBy(Insert(x, t, key), key)
  {
    if |t| == 0 {
    } else if key(x) < key(t[|t| - 1]) {
      var init, last := t[..|t| - 1], t[|t| - 1];
      assert SortedBy(init, key);
      InsertSorted(x, init, key);
      InsertBounded(x, init, key, key(last));
      SnocSorted(Insert(x, init, key), last, key);
    } else {
      SnocSorted(t, x, key);
    }
  }

  /** An element with a key at least every key of a sorted sequence extends it sorted. */
  lemma SnocSorted<T>(u: seq<T>, x: T, key: T -> real)
    requires SortedBy(u, key) && forall i :: 0 <= i < |u| ==> key(u[i]) <= key(x)
    ensures SortedBy(u + [x], key)
  {
    var v := u + [x];
    forall i, j | 0 <= i < j < |v| ensures key(v[i]) <= key(v[j]) {
      assert v[i] == u[i];
      if j < |u| {
        assert v[j] == u[j];
      }
    }
  }

  /** Inserting an element below a bound keeps every key below it. */
  lemma InsertBounded<T>(x: T, t: seq<T>, key: T -> real, b: real)
    requires key(x) <= b && forall i :: 0 <= i < |t| ==> key(t[i]) <= b
    ensures forall i :: 0 <= i < |Insert(x, t, key)| ==> key(Insert(x, t, key)[i]) <= b
  {
    var u := Insert(x, t, key);
    InsertCount(x, t, key);
    forall i | 0 <= i < |u| ensures key(u[i]) <= b {
      var e := u[i];
      assert e in multiset(u);
      if e != x {
        assert e in multiset(t);
        var m :| 0 <= m < |t| && t[m] == e;
      }
    }
  }

  /** Among equal keys, the inserted element lands after the ones already present. */
  lemma {:induction false} InsertWithKey<T>(x: T, t: seq<T>, key: T -> real, k: real)
    requires SortedBy(t, key)
    ensures WithKey(Insert(x, t, key), key, k) == WithKey(t, key, k) + (if key(x) == k then [x] else [])
  {
    if |t| == 0 {
      WithKeySnoc(t, x, key, k);
      assert t + [x] == [x];
    } else {
      var init, last := t[..|t| - 1], t[|t| - 1];
      if key(x) < key(last) {
        InsertWithKey(x, init, key, k);
        WithKeySnoc(Insert(x, init, key), last, key, k);
      } else {
        WithKeySnoc(t, x, key, k);
      }
    }
  }

  /** Stable sort of `s` by `key`. */
  function SortBy<T>(s: seq<T>, key: T -> real): (r: seq<T>)
    ensures |r| == |s|
    ensures SortedBy(r, key)
    ensures multiset(r) == multiset(s)
  {
    if |s| == 0 then []
    else
      var prefix := SortBy(s[..|s| - 1], key);
      InsertCount(s[|s| - 1], prefix, key);
      InsertSorted(s[|s| - 1], prefix, key);
      assert s == s[..|s| - 1] + [s[|s| - 1]];
      Insert(s[|s| - 1], prefix, key)
  }

  /** The sort is stable: for each key, the elements carrying it keep their input order. */
  lemma {:induction false} SortByStable<T>(s: seq<T>, key: T -> real, k: real)
    ensures WithKey(SortBy(s, key), key, k) == WithKey(s, key, k)
  {
    if |s| > 0 {
      SortByStable(s[..|s| - 1], key, k);
      StableStep(s, key, k);
    }
  }

  /** The stability of the sort extends from all but the last element to the whole. */
  lemma StableStep<T>(s: seq<T>, key: T -> real, k: real)
    requires |s| > 0
    requires WithKey(SortBy(s[..|s| - 1], key), key, k) == WithKey(s[..|s| - 1], key, k)
    ensures WithKey(SortBy(s, key), key, k) == WithKey(s, key, k)
  {
    var init, x := s[..|s| - 1], s[|s| - 1];
    assert SortBy(s, key) == Insert(x, SortBy(init, key), key);
    InsertWithKey(x, SortBy(init, key), key, k);
  }

  lemma SortedInit<T>(s: seq<T>, key: T -> real)
    requires SortedBy(s, key) && |s| > 0
    ensures SortedBy(s[..|s| - 1], key)
  {
    var init := s[..|s| - 1];
    forall i, j | 0 <= i < j < |init| ensures key(init[i]) <= key(init[j]) {
      assert init[i] == s[i] && init[j] == s[j];
    }
  }

  /** An element whose key is not below the last key goes at the end. */
  lemma InsertAtEnd<T>(x: T, t: seq<T>, key: T -> real)
    requires |t| == 0 || key(t[|t| - 1]) <= key(x)
    ensures Insert(x, t, key) == t + [x]
  {
  }

  /** Sorting input that is already in key order changes nothing. */
  lemma {:induction false} SortBySorted<T>(s: seq<T>, key: T -> real)
    requires SortedBy(s, key)
    ensures SortBy(s, key) == s
  {
    if |s| > 0 {
      var init, last := s[..|s| - 1], s[|s| - 1];
      assert SortBy(init, key) == init by {
        SortedInit(s, key);
        SortBySorted(init, key);
      }
      assert Insert(last, init, key) == s by {
        if |init| > 0 {
          assert key(s[|s| - 2]) <= key(s[|s| - 1]);
        }
        InsertAtEnd(last, init, key);
        assert init + [last] == s;
      }
      assert SortBy(s, key) == Insert(last, SortBy(init, key), key);
    }
  }
}
