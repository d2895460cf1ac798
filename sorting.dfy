/**
 * Stable sorting by a key, the behaviour of Python's `sorted(..., key=...)`
 * and of Rust's `sort_by` / `sort_by_key`. Defined as an insertion sort on
 * sequences; the lemmas state sortedness, permutation and stability.
 */
module Sorting {

  ghost predicate SortedBy<T>(s: seq<T>, key: T -> real)
  {
    forall i, j :: 0 <= i < j < |s| ==> key(s[i]) <= key(s[j])
  }

  /** Inserts `x` after every element whose key is at most its own. */
  function Insert<T>(s: seq<T>, x: T, key: T -> real): (r: seq<T>)
    ensures multiset(r) == multiset(s) + multiset{x}
    ensures |r| == |s| + 1
  {
    if s == [] || key(s[|s| - 1]) <= key(x) then s + [x]
    else
      assert s == s[..|s| - 1] + [s[|s| - 1]];
      Insert(s[..|s| - 1], x, key) + [s[|s| - 1]]
  }

  function SortBy<T>(s: seq<T>, key: T -> real): (r: seq<T>)
    ensures |r| == |s|
  {
    if s == [] then [] else Insert(SortBy(s[..|s| - 1], key), s[|s| - 1], key)
  }

  /** The elements of `s` whose key is `k`, in their order in `s`. */
  function KeyFilter<T>(s: seq<T>, key: T -> real, k: real): (r: seq<T>)
    ensures |r| <= |s|
  {
    if s == [] then []
    else KeyFilter(s[..|s| - 1], key, k) + (if key(s[|s| - 1]) == k then [s[|s| - 1]] else [])
  }

  lemma {:induction false} InsertSorted<T>(s: seq<T>, x: T, key: T -> real)
    requires SortedBy(s, key)
    ensures SortedBy(Insert(s, x, key), key)
  {
    if s == [] || key(s[|s| - 1]) <= key(x) {
    } else {
      var init := s[..|s| - 1];
      var last := s[|s| - 1];
      InsertSorted(init, x, key);
      var r := Insert(init, x, key);
      forall i | 0 <= i < |init| ensures key(init[i]) <= key(last) {
        assert s[i] == init[i];
      }
      InsertBounded(init, x, key, key(last));
      SnocSorted(r, last, key);
    }
  }

  /** Every key in `Insert(s, x, key)` is at most `b` when every key in `s` and `x`'s are. */
  lemma InsertBounded<T>(s: seq<T>, x: T, key: T -> real, b: real)
    requires forall i :: 0 <= i < |s| ==> key(s[i]) <= b
    requires key(x) <= b
    ensures forall i :: 0 <= i < |Insert(s, x, key)| ==> key(Insert(s, x, key)[i]) <= b
  {
    var r := Insert(s, x, key);
    forall i | 0 <= i < |r| ensures key(r[i]) <= b {
      var y := r[i];
      assert y in multiset(r);
      if y != x {
        assert y in multiset(s);
        var k :| 0 <= k < |s| && s[k] == y;
      }
    }
  }

  lemma SnocSorted<T>(r: seq<T>, last: T, key: T -> real)
    requires SortedBy(r, key)
    requires forall i :: 0 <= i < |r| ==> key(r[i]) <= key(last)
    ensures SortedBy(r + [last], key)
  {
    forall i, j | 0 <= i < j < |r| + 1 ensures key((r + [last])[i]) <= key((r + [last])[j]) {
      if j == |r| {
        assert (r + [last])[i] == r[i];
      }
    }
  }

  lemma {:induction false} SortByCorrect<T>(s: seq<T>, key: T -> real)
    ensures SortedBy(SortBy(s, key), key)
    ensures multiset(SortBy(s, key)) == multiset(s)
  {
    if s != [] {
      SortByCorrect(s[..|s| - 1], key);
      InsertSorted(SortBy(s[..|s| - 1], key), s[|s| - 1], key);
      assert s == s[..|s| - 1] + [s[|s| - 1]];
    }
  }

  lemma {:induction false} KeyFilterAppend<T>(a: seq<T>, b: seq<T>, key: T -> real, k: real)
    ensures KeyFilter(a + b, key, k) == KeyFilter(a, key, k) + KeyFilter(b, key, k)
    decreases |b|
  {
    if b != [] {
      assert (a + b)[..|a + b| - 1] == a + b[..|b| - 1];
      KeyFilterAppend(a, b[..|b| - 1], key, k);
    } else {
      assert a + b == a;
    }
  }

  lemma {:induction false} KeyFilterNone<T>(s: seq<T>, key: T -> real, k: real)
    requires forall i :: 0 <= i < |s| ==> key(s[i]) != k
    ensures KeyFilter(s, key, k) == []
  {
    if s != [] {
      KeyFilterNone(s[..|s| - 1], key, k);
    }
  }

  lemma {:induction false} InsertStable<T>(s: seq<T>, x: T, key: T -> real, k: real)
    ensures KeyFilter(Insert(s, x, key), key, k) == KeyFilter(s, key, k) + (if key(x) == k then [x] else [])
  {
    if s == [] || key(s[|s| - 1]) <= key(x) {
      KeyFilterAppend(s, [x], key, k);
      assert KeyFilter([x], key, k) == KeyFilter([], key, k) + (if key(x) == k then [x] else []) by {
        assert [x][..0] == [];
      }
    } else {
      var init := s[..|s| - 1];
      var last := s[|s| - 1];
      InsertStable(init, x, key, k);
      assert Insert(s, x, key) == Insert(init, x, key) + [last];
      assert Insert(s, x, key)[..|Insert(s, x, key)| - 1] == Insert(init, x, key);
      if key(last) == k {
        assert key(x) != k;
      }
    }
  }

  /** Elements with equal keys keep their relative order. */
  lemma {:induction false} SortByStable<T>(s: seq<T>, key: T -> real, k: real)
    ensures KeyFilter(SortBy(s, key), key, k) == KeyFilter(s, key, k)
  {
    if s != [] {
      SortByStable(s[..|s| - 1], key, k);
      InsertStable(SortBy(s[..|s| - 1], key), s[|s| - 1], key, k);
    }
  }

  /** A sequence already in order is left as it is. */
  lemma {:induction false} SortBySorted<T>(s: seq<T>, key: T -> real)
    requires SortedBy(s, key)
    ensures SortBy(s, key) == s
  {
    if s != [] {
      var init := s[..|s| - 1];
      assert SortedBy(init, key);
      SortBySorted(init, key);
      if |init| > 0 {
        assert key(init[|init| - 1]) <= key(s[|s| - 1]);
      }
      assert init + [s[|s| - 1]] == s;
    }
  }
}
