/** Stable sorting by an integer key, as `sorted_by_key` does it: elements
    with equal keys keep their input order. */
module Sorting {

  predicate SortedBy<T>(s: seq<T>, key: T -> int) {
    forall i, j :: 0 <= i < j < |s| ==> key(s[i]) <= key(s[j])
  }

  /** Places `x` after every trailing element whose key is not larger than its own. */
  function Insert<T>(s: seq<T>, x: T, key: T -> int): seq<T>
    decreases |s|
  {
    if |s| == 0 || key(s[|s| - 1]) <= key(x) then s + [x]
    else Insert(s[..|s| - 1], x, key) + [s[|s| - 1]]
  }

  /** Insertion sort from the front: each element goes behind the equal keys
      already placed, which are all earlier in the input. */
  function SortBy<T>(s: seq<T>, key: T -> int): seq<T>
    decreases |s|
  {
    if |s| == 0 then [] else Insert(SortBy(s[..|s| - 1], key), s[|s| - 1], key)
  }

  /** The elements whose key is `k`, in order. */
  function WithKey<T>(s: seq<T>, key: T -> int, k: int): seq<T>
    decreases |s|
  {
    if |s| == 0 then []
    else WithKey(s[..|s| - 1], key, k) + (if key(s[|s| - 1]) == k then [s[|s| - 1]] else [])
  }

  // ---------------------------------------------------------------------------
  // Order and contents

  /** Insertion adds exactly `x` to the contents. */
  lemma {:induction false} InsertContents<T>(s: seq<T>, x: T, key: T -> int)
    ensures multiset(Insert(s, x, key)) == multiset(s) + multiset{x}
    decreases |s|
  {
    if |s| > 0 && key(s[|s| - 1]) > key(x) {
      var init := s[..|s| - 1];
      InsertContents(init, x, key);
      assert s == init + [s[|s| - 1]];
    }
  }

  /** A sorted sequence stays sorted when an element no smaller than all of
      its keys is appended. */
  lemma SortedSnoc<T>(s: seq<T>, y: T, key: T -> int)
    requires SortedBy(s, key)
    requires forall i :: 0 <= i < |s| ==> key(s[i]) <= key(y)
    ensures SortedBy(s + [y], key)
  {
  }

  /** Inserting into a sorted sequence keeps it sorted. */
  lemma {:induction false} InsertSorted<T>(s: seq<T>, x: T, key: T -> int)
    requires SortedBy(s, key)
    ensures SortedBy(Insert(s, x, key), key)
    decreases |s|
  {
    var n := |s|;
    if n == 0 || key(s[n - 1]) <= key(x) {
      SortedSnoc(s, x, key);
    } else {
      var init := s[..n - 1];
      var last := s[n - 1];
      assert SortedBy(init, key);
      InsertSorted(init, x, key);
      InsertContents(init, x, key);
      var front := Insert(init, x, key);
      forall i | 0 <= i < |front| ensures key(front[i]) <= key(last) {
        assert front[i] in multiset(front);
        if front[i] != x {
          assert front[i] in init;
        }
      }
      SortedSnoc(front, last, key);
    }
  }

  /** The sort returns its input in key order, every element exactly as often. */
  lemma {:induction false} SortByCorrect<T>(s: seq<T>, key: T -> int)
    ensures SortedBy(SortBy(s, key), key)
    ensures multiset(SortBy(s, key)) == multiset(s)
    ensures |SortBy(s, key)| == |s|
    decreases |s|
  {
    if |s| > 0 {
      var init := s[..|s| - 1];
      SortByCorrect(init, key);
      InsertSorted(SortBy(init, key), s[|s| - 1], key);
      InsertContents(SortBy(init, key), s[|s| - 1], key);
      assert s == init + [s[|s| - 1]];
      assert |SortBy(s, key)| == |multiset(SortBy(s, key))|;
    }
  }

  // ---------------------------------------------------------------------------
  // Stability

  lemma WithKeySnoc<T>(a: seq<T>, y: T, key: T -> int, k: int)
    ensures WithKey(a + [y], key, k) == WithKey(a, key, k) + (if key(y) == k then [y] else [])
  {
    assert (a + [y])[..|a|] == a;
  }

  /** Inserting `x` appends it to the elements of its key and leaves every other
      key's elements alone. */
  lemma {:induction false} InsertWithKey<T>(s: seq<T>, x: T, key: T -> int, k: int)
    ensures WithKey(Insert(s, x, key), key, k) == WithKey(s + [x], key, k)
    decreases |s|
  {
    if |s| > 0 && key(s[|s| - 1]) > key(x) {
      var last := s[|s| - 1];
      var init := s[..|s| - 1];
      var xs := if key(x) == k then [x] else [];
      var ls := if key(last) == k then [last] else [];
      assert xs == [] || ls == [];
      InsertWithKey(init, x, key, k);
      WithKeySnoc(Insert(init, x, key), last, key, k);
      WithKeySnoc(init, x, key, k);
      assert s == init + [last];
      WithKeySnoc(init, last, key, k);
      WithKeySnoc(s, x, key, k);
      calc {
        WithKey(Insert(s, x, key), key, k);
        WithKey(Insert(init, x, key), key, k) + ls;
        WithKey(init, key, k) + xs + ls;
        WithKey(init, key, k) + ls + xs;
        WithKey(s + [x], key, k);
      }
    }
  }

  /** Stability: for every key, the sorted sequence lists that key's elements
      in their input order. */
  lemma {:induction false} SortByStable<T>(s: seq<T>, key: T -> int, k: int)
    ensures WithKey(SortBy(s, key), key, k) == WithKey(s, key, k)
    decreases |s|
  {
    if |s| > 0 {
      var init := s[..|s| - 1];
      var last := s[|s| - 1];
      SortByStable(init, key, k);
      InsertWithKey(SortBy(init, key), last, key, k);
      WithKeySnoc(SortBy(init, key), last, key, k);
      WithKeySnoc(init, last, key, k);
      assert s == init + [last];
    }
  }

  /** Input that is already in order comes back unchanged. */
  lemma {:induction false} SortBySorted<T>(s: seq<T>, key: T -> int)
    requires SortedBy(s, key)
    ensures SortBy(s, key) == s
    decreases |s|
  {
    if |s| > 0 {
      var init := s[..|s| - 1];
      assert SortedBy(init, key);
      SortBySorted(init, key);
      assert s == init + [s[|s| - 1]];
    }
  }
}
