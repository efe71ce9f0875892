/** Python's `list.sort(key=...)` and `sorted(..., key=...)`: a stable sort by
    a key. Insertion sort is the reference algorithm; what it promises is a
    permutation of the input, ordered by key, that keeps elements with equal
    keys in their input order. `reverse=True` is the same sort under the
    converse order (Python keeps it stable too). */
module StableSort {

  /** `less` is a strict total order on keys. */
  ghost predicate StrictTotal<K(!new)>(less: (K, K) -> bool) {
    && (forall a :: !less(a, a))
    && (forall a, b, c :: less(a, b) && less(b, c) ==> less(a, c))
    && (forall a, b :: a != b ==> less(a, b) || less(b, a))
  }

  /** No element is followed by one with a smaller key. */
  ghost predicate SortedBy<T, K>(s: seq<T>, key: T -> K, less: (K, K) -> bool) {
    forall i, j :: 0 <= i < j < |s| ==> !less(key(s[j]), key(s[i]))
  }

  /** The elements of `s` whose key is `k`, in their order in `s`. */
  function Having<T, K(==)>(s: seq<T>, key: T -> K, k: K): (r: seq<T>)
    ensures |r| <= |s|
  {
    if |s| == 0 then []
    else (if key(s[0]) == k then [s[0]] else []) + Having(s[1..], key, k)
  }

  /** `x` placed after every element whose key is not greater than its own. */
  function Insert<T, K>(s: seq<T>, x: T, key: T -> K, less: (K, K) -> bool): (r: seq<T>)
    ensures |r| == |s| + 1
    ensures multiset(r) == multiset(s) + multiset{x}
  {
    if |s| == 0 then [x]
    else if less(key(x), key(s[0])) then [x] + s
    else
      assert s == [s[0]] + s[1..];
      [s[0]] + Insert(s[1..], x, key, less)
  }

  /** `sorted(s, key=key)` where keys compare by `less`. */
  function SortBy<T, K>(s: seq<T>, key: T -> K, less: (K, K) -> bool): (r: seq<T>)
    ensures |r| == |s|
    ensures multiset(r) == multiset(s)
  {
    if |s| == 0 then []
    else
      assert s == s[..|s| - 1] + [s[|s| - 1]];
      Insert(SortBy(s[..|s| - 1], key, less), s[|s| - 1], key, less)
  }

  lemma SplitLast<T>(s: seq<T>)
    requires |s| > 0
    ensures s[..|s| - 1] + [s[|s| - 1]] == s
  {
  }

  // ---------------------------------------------------------------------
  // Order
  // ---------------------------------------------------------------------

  /** In a sorted sequence, everything has a key at least the first one's. */
  lemma HeadIsLeast<T, K(!new)>(s: seq<T>, key: T -> K, less: (K, K) -> bool, k: K)
    requires StrictTotal(less) && SortedBy(s, key, less)
    requires |s| > 0 && less(k, key(s[0]))
    ensures forall i :: 0 <= i < |s| ==> less(k, key(s[i]))
  {
    forall i | 0 < i < |s|
      ensures less(k, key(s[i]))
    {
      assert !less(key(s[i]), key(s[0]));
      if key(s[i]) != key(s[0]) {
        assert less(key(s[0]), key(s[i]));
      }
    }
  }

  lemma {:induction false} InsertSorted<T, K(!new)>(s: seq<T>, x: T, key: T -> K, less: (K, K) -> bool)
    requires StrictTotal(less) && SortedBy(s, key, less)
    ensures SortedBy(Insert(s, x, key, less), key, less)
  {
    if |s| > 0 {
      if less(key(x), key(s[0])) {
        HeadIsLeast(s, key, less, key(x));
      } else {
        var rest := Insert(s[1..], x, key, less);
        InsertSorted(s[1..], x, key, less);
        var r := [s[0]] + rest;
        forall i, j | 0 <= i < j < |r|
          ensures !less(key(r[j]), key(r[i]))
        {
          if i == 0 {
            var e := rest[j - 1];
            assert e in multiset(rest);
            if e != x {
              assert e in s[1..];
              var m :| 0 <= m < |s| - 1 && s[1..][m] == e;
              assert s[m + 1] == e;
            }
          } else {
            assert r[i] == rest[i - 1] && r[j] == rest[j - 1];
          }
        }
      }
    }
  }

  /** The result of `SortBy` is ordered by key. */
  lemma {:induction false} SortBySorted<T, K(!new)>(s: seq<T>, key: T -> K, less: (K, K) -> bool)
    requires StrictTotal(less)
    ensures SortedBy(SortBy(s, key, less), key, less)
  {
    if |s| > 0 {
      SortBySorted(s[..|s| - 1], key, less);
      InsertSorted(SortBy(s[..|s| - 1], key, less), s[|s| - 1], key, less);
    }
  }

  // ---------------------------------------------------------------------
  // Stability
  // ---------------------------------------------------------------------

  lemma {:induction false} HavingAppend<T, K>(s: seq<T>, t: seq<T>, key: T -> K, k: K)
    ensures Having(s + t, key, k) == Having(s, key, k) + Having(t, key, k)
  {
    if |s| == 0 {
      assert s + t == t;
    } else {
      var u, h := s + t, if key(s[0]) == k then [s[0]] else [];
      assert u[0] == s[0] && u[1..] == s[1..] + t;
      HavingAppend(s[1..], t, key, k);
      assert Having(u, key, k) == h + (Having(s[1..], key, k) + Having(t, key, k));
    }
  }

  /** No element of `s` has key `k`. */
  lemma {:induction false} HavingNone<T, K>(s: seq<T>, key: T -> K, k: K)
    requires forall i :: 0 <= i < |s| ==> key(s[i]) != k
    ensures Having(s, key, k) == []
  {
    if |s| > 0 {
      HavingNone(s[1..], key, k);
    }
  }

  /** Inserting into a sorted sequence puts `x` after every element with its key. */
  lemma {:induction false} InsertHaving<T, K(!new)>(s: seq<T>, x: T, key: T -> K, less: (K, K) -> bool, k: K)
    requires StrictTotal(less) && SortedBy(s, key, less)
    ensures Having(Insert(s, x, key, less), key, k) ==
            Having(s, key, k) + (if key(x) == k then [x] else [])
  {
    if |s| > 0 {
      if less(key(x), key(s[0])) {
        if key(x) == k {
          HeadIsLeast(s, key, less, key(x));
          HavingNone(s, key, k);
        }
        HavingAppend([x], s, key, k);
      } else {
        InsertHaving(s[1..], x, key, less, k);
        HavingAppend([s[0]], Insert(s[1..], x, key, less), key, k);
        HavingAppend([s[0]], s[1..], key, k);
        assert [s[0]] + s[1..] == s;
      }
    }
  }

  /** Elements with equal keys keep their input order. */
  lemma {:induction false} SortByStable<T, K(!new)>(s: seq<T>, key: T -> K, less: (K, K) -> bool, k: K)
    requires StrictTotal(less)
    ensures Having(SortBy(s, key, less), key, k) == Having(s, key, k)
  {
    if |s| > 0 {
      var init, last := s[..|s| - 1], s[|s| - 1];
      var sorted := SortBy(init, key, less);
      assert SortBy(s, key, less) == Insert(sorted, last, key, less);
      SortByStable(init, key, less, k);
      SortBySorted(init, key, less);
      InsertHaving(sorted, last, key, less, k);
      SplitLast(s);
      HavingAppend(init, [last], key, k);
    }
  }

  /** Sorting an already sorted sequence changes nothing. */
  lemma {:induction false} SortBySortedInput<T, K(!new)>(s: seq<T>, key: T -> K, less: (K, K) -> bool)
    requires StrictTotal(less) && SortedBy(s, key, less)
    ensures SortBy(s, key, less) == s
  {
    if |s| > 0 {
      var init, last := s[..|s| - 1], s[|s| - 1];
      assert SortedBy(init, key, less) by {
        assert forall i :: 0 <= i < |init| ==> init[i] == s[i];
      }
      SortBySortedInput(init, key, less);
      assert forall i :: 0 <= i < |init| ==> !less(key(last), key(init[i])) by {
        assert forall i :: 0 <= i < |init| ==> init[i] == s[i];
      }
      AppendLargest(init, last, key, less);
      SplitLast(s);
    }
  }

  /** Inserting an element no smaller than everything appends it. */
  lemma {:induction false} AppendLargest<T, K>(s: seq<T>, x: T, key: T -> K, less: (K, K) -> bool)
    requires forall i :: 0 <= i < |s| ==> !less(key(x), key(s[i]))
    ensures Insert(s, x, key, less) == s + [x]
  {
    if |s| > 0 {
      AppendLargest(s[1..], x, key, less);
      assert [s[0]] + (s[1..] + [x]) == s + [x];
    }
  }
}
