/**
 * lodash's `sortBy(collection, iteratee)` for an iteratee whose values
 * compare as strings: a stable sort by key. It is written here as an
 * insertion sort, which is stable by construction; the lemmas state what
 * lodash promises of it (a sorted permutation that keeps elements with
 * equal keys in their input order).
 */
module StableSort {
  import opened JsStrings

  /** Every element's key is at most the keys after it. */
  ghost predicate SortedByKey<T>(s: seq<T>, key: T -> string) {
    forall i, j :: 0 <= i < j < |s| ==> LexLeq(key(s[i]), key(s[j]))
  }

  /** Every element's key is below the keys after it. */
  ghost predicate StrictlySortedByKey<T>(s: seq<T>, key: T -> string) {
    forall i, j :: 0 <= i < j < |s| ==> LexLess(key(s[i]), key(s[j]))
  }

  /** The elements of `s` whose key is `k`, in the order of `s`. */
  function WithKey<T>(s: seq<T>, key: T -> string, k: string): (r: seq<T>)
    ensures |r| <= |s|
  {
    if |s| == 0 then []
    else WithKey(s[..|s| - 1], key, k) + (if key(s[|s| - 1]) == k then [s[|s| - 1]] else [])
  }

  /** Places `x` after every element whose key is not above its own. */
  function Insert<T>(x: T, s: seq<T>, key: T -> string): (r: seq<T>)
    ensures |r| == |s| + 1
  {
    if |s| == 0 then [x]
    else if LexLess(key(x), key(s[|s| - 1])) then Insert(x, s[..|s| - 1], key) + [s[|s| - 1]]
    else s + [x]
  }

  function SortBy<T>(s: seq<T>, key: T -> string): (r: seq<T>)
    ensures |r| == |s|
  {
    if |s| == 0 then [] else Insert(s[|s| - 1], SortBy(s[..|s| - 1], key), key)
  }

  lemma {:induction false} InsertPermutation<T>(x: T, s: seq<T>, key: T -> string)
    ensures multiset(Insert(x, s, key)) == multiset(s) + multiset{x}
  {
    if |s| > 0 && LexLess(key(x), key(s[|s| - 1])) {
      InsertPermutation(x, s[..|s| - 1], key);
      assert s == s[..|s| - 1] + [s[|s| - 1]];
    }
  }

  lemma {:induction false} InsertSorted<T>(x: T, s: seq<T>, key: T -> string)
    requires SortedByKey(s, key)
    ensures SortedByKey(Insert(x, s, key), key)
  {
    if |s| > 0 {
      var init, last := s[..|s| - 1], s[|s| - 1];
      if LexLess(key(x), key(last)) {
        InsertSorted(x, init, key);
        InsertPermutation(x, init, key);
        var t := Insert(x, init, key);
        forall i | 0 <= i < |t|
          ensures LexLeq(key(t[i]), key(last))
        {
          assert t[i] in multiset(t);
          if t[i] != x {
            assert t[i] in multiset(init);
            var m :| 0 <= m < |init| && init[m] == t[i];
            assert s[m] == t[i];
          }
        }
        SortedAppend(t, last, key);
      } else {
        LexLeqTotal(key(x), key(last));
        forall i | 0 <= i < |s|
          ensures LexLeq(key(s[i]), key(x))
        {
          LexLeqTransitive(key(s[i]), key(last), key(x));
        }
        SortedAppend(s, x, key);
      }
    }
  }

  /** An element whose key is not below any key of a sorted sequence can be
      appended to it. */
  lemma SortedAppend<T>(t: seq<T>, y: T, key: T -> string)
    requires SortedByKey(t, key)
    requires forall i :: 0 <= i < |t| ==> LexLeq(key(t[i]), key(y))
    ensures SortedByKey(t + [y], key)
  {
    var u := t + [y];
    forall i, j | 0 <= i < j < |u|
      ensures LexLeq(key(u[i]), key(u[j]))
    {
      assert u[i] == t[i];
      if j < |t| {
        assert u[j] == t[j];
      } else {
        assert u[j] == y;
      }
    }
  }

  lemma {:induction false} InsertWithKey<T>(x: T, s: seq<T>, key: T -> string, k: string)
    ensures WithKey(Insert(x, s, key), key, k) == WithKey(s, key, k) + (if key(x) == k then [x] else [])
  {
    var r := Insert(x, s, key);
    if |s| == 0 {
      assert r[..0] == [];
    } else {
      var init, last := s[..|s| - 1], s[|s| - 1];
      if LexLess(key(x), key(last)) {
        InsertWithKey(x, init, key, k);
        assert r[..|r| - 1] == Insert(x, init, key);
        LexLessIrreflexive(key(x));
      } else {
        assert r[..|r| - 1] == s;
      }
    }
  }

  /** The result holds the same elements, each as often. */
  lemma {:induction false} SortByPermutation<T>(s: seq<T>, key: T -> string)
    ensures multiset(SortBy(s, key)) == multiset(s)
  {
    if |s| > 0 {
      SortByPermutation(s[..|s| - 1], key);
      InsertPermutation(s[|s| - 1], SortBy(s[..|s| - 1], key), key);
      assert s == s[..|s| - 1] + [s[|s| - 1]];
    }
  }

  /** The result is ordered by key. */
  lemma {:induction false} SortBySorted<T>(s: seq<T>, key: T -> string)
    ensures SortedByKey(SortBy(s, key), key)
  {
    if |s| > 0 {
      SortBySorted(s[..|s| - 1], key);
      InsertSorted(s[|s| - 1], SortBy(s[..|s| - 1], key), key);
    }
  }

  /** Stability: the elements sharing a key appear in their input order. */
  lemma {:induction false} SortByStable<T>(s: seq<T>, key: T -> string, k: string)
    ensures WithKey(SortBy(s, key), key, k) == WithKey(s, key, k)
  {
    if |s| > 0 {
      SortByStable(s[..|s| - 1], key, k);
      InsertWithKey(s[|s| - 1], SortBy(s[..|s| - 1], key), key, k);
    }
  }

  /** Two sequences ordered strictly by key that hold the same elements
      start with the same element: the one with the least key. */
  lemma StrictlySortedHeads<T>(a: seq<T>, b: seq<T>, key: T -> string)
    requires StrictlySortedByKey(a, key) && StrictlySortedByKey(b, key)
    requires multiset(a) == multiset(b) && |a| > 0
    ensures |b| > 0 && a[0] == b[0]
  {
    assert a[0] in multiset(b);
    var j :| 0 <= j < |b| && b[j] == a[0];
    assert b[0] in multiset(a);
    var i :| 0 <= i < |a| && a[i] == b[0];
    assert LexLeq(key(a[0]), key(b[0])) by {
      assert i == 0 || LexLess(key(a[0]), key(a[i]));
    }
    assert LexLeq(key(b[0]), key(a[0])) by {
      assert j == 0 || LexLess(key(b[0]), key(b[j]));
    }
    if key(a[0]) != key(b[0]) {
      LexLessAsymmetric(key(a[0]), key(b[0]));
    }
    forall m | 0 < m < |b|
      ensures key(b[m]) != key(b[0])
    {
      LexLessIrreflexive(key(b[0]));
    }
    assert key(b[j]) == key(b[0]);
    assert j == 0;
  }

  lemma StrictlySortedTail<T>(a: seq<T>, key: T -> string)
    requires StrictlySortedByKey(a, key) && |a| > 0
    ensures StrictlySortedByKey(a[1..], key)
  {
    forall m, n | 0 <= m < n < |a| - 1
      ensures LexLess(key(a[1..][m]), key(a[1..][n]))
    {
      assert a[1..][m] == a[m + 1] && a[1..][n] == a[n + 1];
    }
  }

  lemma MultisetTails<T>(a: seq<T>, b: seq<T>)
    requires |a| > 0 && |b| > 0 && a[0] == b[0] && multiset(a) == multiset(b)
    ensures multiset(a[1..]) == multiset(b[1..])
  {
    assert a == [a[0]] + a[1..] && b == [b[0]] + b[1..];
    assert multiset(a) == multiset{a[0]} + multiset(a[1..]);
    assert multiset(b) == multiset{b[0]} + multiset(b[1..]);
    assert multiset(a[1..]) == multiset(a) - multiset{a[0]};
    assert multiset(b[1..]) == multiset(b) - multiset{b[0]};
  }

  /** Two sequences ordered strictly by key that hold the same elements
      are the same sequence. */
  lemma {:induction false} StrictlySortedUnique<T>(a: seq<T>, b: seq<T>, key: T -> string)
    requires StrictlySortedByKey(a, key) && StrictlySortedByKey(b, key)
    requires multiset(a) == multiset(b)
    ensures a == b
  {
    if |a| > 0 {
      StrictlySortedHeads(a, b, key);
      StrictlySortedTail(a, key);
      StrictlySortedTail(b, key);
      MultisetTails(a, b);
      StrictlySortedUnique(a[1..], b[1..], key);
      assert a == [a[0]] + a[1..] && b == [b[0]] + b[1..];
    } else {
      assert |multiset(b)| == |b|;
    }
  }
}
