/** Python's `sorted(xs, key=...)` and `xs.sort(key=..., reverse=...)`: a stable sort by an
    integer key. A descending sort is the ascending sort by the negated key, which keeps
    equal-key elements in input order just as `reverse=True` does. */
module Sorting {

  ghost predicate SortedBy<T>(s: seq<T>, key: T -> int) {
    forall i, j :: 0 <= i < j < |s| ==> key(s[i]) <= key(s[j])
  }

  /** The elements of `s` whose key is `k`, in their order in `s`. */
  function WithKey<T>(s: seq<T>, key: T -> int, k: int): seq<T>
  {
    if s == [] then []
    else WithKey(s[..|s| - 1], key, k) + (if key(s[|s| - 1]) == k then [s[|s| - 1]] else [])
  }

  lemma {:induction false} WithKeyAppend<T>(a: seq<T>, b: seq<T>, key: T -> int, k: int)
    ensures WithKey(a + b, key, k) == WithKey(a, key, k) + WithKey(b, key, k)
    decreases |b|
  {
    if b == [] {
      assert a + b == a;
    } else {
      assert (a + b)[..|a + b| - 1] == a + b[..|b| - 1];
      WithKeyAppend(a, b[..|b| - 1], key, k);
    }
  }

  /** Places `x` after every element of `s` whose key is at most `key(x)`. */
  function Insert<T>(x: T, s: seq<T>, key: T -> int): (r: seq<T>)
    ensures |r| == |s| + 1
  {
    if s == [] then [x]
    else if key(x) < key(s[|s| - 1]) then Insert(x, s[..|s| - 1], key) + [s[|s| - 1]]
    else s + [x]
  }

  lemma {:induction false} InsertMultiset<T>(x: T, s: seq<T>, key: T -> int)
    ensures multiset(Insert(x, s, key)) == multiset(s) + multiset{x}
    decreases |s|
  {
    if s != [] && key(x) < key(s[|s| - 1]) {
      InsertMultiset(x, s[..|s| - 1], key);
      assert s == s[..|s| - 1] + [s[|s| - 1]];
    }
  }

  /** Inserting keeps every key below a common bound `m`. */
  lemma {:induction false} InsertBound<T>(x: T, s: seq<T>, key: T -> int, m: int)
    requires key(x) <= m
    requires forall i :: 0 <= i < |s| ==> key(s[i]) <= m
    ensures forall i :: 0 <= i < |s| + 1 ==> key(Insert(x, s, key)[i]) <= m
    decreases |s|
  {
    if s != [] && key(x) < key(s[|s| - 1]) {
      InsertBound(x, s[..|s| - 1], key, m);
    }
  }

  lemma {:induction false} InsertSorted<T>(x: T, s: seq<T>, key: T -> int)
    requires SortedBy(s, key)
    ensures SortedBy(Insert(x, s, key), key)
    decreases |s|
  {
    if s != [] && key(x) < key(s[|s| - 1]) {
      var init, last := s[..|s| - 1], s[|s| - 1];
      InsertSorted(x, init, key);
      InsertBound(x, init, key, key(last));
    }
  }

  lemma {:induction false} InsertWithKey<T>(x: T, s: seq<T>, key: T -> int, k: int)
    ensures WithKey(Insert(x, s, key), key, k) == WithKey(s, key, k) + (if key(x) == k then [x] else [])
    decreases |s|
  {
    var r := Insert(x, s, key);
    if s == [] {
      assert r[..0] == [];
    } else if key(x) < key(s[|s| - 1]) {
      var init, last := s[..|s| - 1], s[|s| - 1];
      InsertWithKey(x, init, key, k);
      var r' := Insert(x, init, key);
      assert r[..|r| - 1] == r';
    } else {
      assert r[..|r| - 1] == s;
    }
  }

  /** Stable insertion sort by `key`, ascending. */
  function SortByKey<T>(s: seq<T>, key: T -> int): (r: seq<T>)
    ensures |r| == |s|
    ensures SortedBy(r, key)
    ensures multiset(r) == multiset(s)
    ensures forall k :: WithKey(r, key, k) == WithKey(s, key, k)
  {
    if s == [] then []
    else
      var init := SortByKey(s[..|s| - 1], key);
      InsertSorted(s[|s| - 1], init, key);
      InsertMultiset(s[|s| - 1], init, key);
      assert s == s[..|s| - 1] + [s[|s| - 1]];
      forall k ensures WithKey(Insert(s[|s| - 1], init, key), key, k) == WithKey(s, key, k) {
        InsertWithKey(s[|s| - 1], init, key, k);
      }
      Insert(s[|s| - 1], init, key)
  }

  /** A sequence whose keys are already in order is left unchanged. */
  lemma {:induction false} SortSortedNoop<T>(s: seq<T>, key: T -> int)
    requires SortedBy(s, key)
    ensures SortByKey(s, key) == s
  {
    if s != [] {
      var init := s[..|s| - 1];
      assert SortedBy(init, key);
      SortSortedNoop(init, key);
      assert SortByKey(s, key) == Insert(s[|s| - 1], init, key);
      if |init| > 0 {
        assert key(init[|init| - 1]) <= key(s[|s| - 1]);
      }
      assert init + [s[|s| - 1]] == s;
    }
  }
}
