/**
 * The stable descending sort both assemblers use: PHP 8 `usort` with the comparator
 * `$b['value'] - $a['value']`, and ECMAScript 2019 `Array.prototype.sort` with the
 * comparator `b[keyB] - a[keyA]`. Both library sorts are stable, so elements with equal
 * keys keep the order they were supplied in. The model is an insertion sort that takes
 * the elements in order.
 */
module StableSort {

  /** Keys never increase from left to right. */
  ghost predicate SortedDesc<T>(s: seq<T>, key: T -> int) {
    forall i, j :: 0 <= i < j < |s| ==> key(s[i]) >= key(s[j])
  }

  /** The elements of `s` whose key is `v`, in their order in `s`. */
  function WithKey<T>(s: seq<T>, key: T -> int, v: int): seq<T>
    decreases |s|
  {
    if s == [] then []
    else (if key(s[0]) == v then [s[0]] else []) + WithKey(s[1..], key, v)
  }

  /** `x` placed after every element of `s` whose key is at least its own. */
  function Insert<T>(s: seq<T>, x: T, key: T -> int): seq<T>
    decreases |s|
  {
    if s == [] then [x]
    else if key(x) > key(s[0]) then [x] + s
    else [s[0]] + Insert(s[1..], x, key)
  }

  /** The elements of `s` ordered by descending key, equal keys in supply order. */
  function SortDesc<T>(s: seq<T>, key: T -> int): seq<T>
    decreases |s|
  {
    if s == [] then [] else Insert(SortDesc(s[..|s| - 1], key), s[|s| - 1], key)
  }

  // ---------------------------------------------------------------------------
  // WithKey
  // ---------------------------------------------------------------------------

  lemma {:induction false} WithKeyAppend<T>(a: seq<T>, b: seq<T>, key: T -> int, v: int)
    ensures WithKey(a + b, key, v) == WithKey(a, key, v) + WithKey(b, key, v)
    decreases |a|
  {
    if a == [] {
      assert a + b == b;
    } else {
      var u := a + b;
      var head := if key(a[0]) == v then [a[0]] else [];
      assert u[0] == a[0];
      assert u[1..] == a[1..] + b;
      assert WithKey(u, key, v) == head + WithKey(a[1..] + b, key, v);
      WithKeyAppend(a[1..], b, key, v);
      assert WithKey(a, key, v) == head + WithKey(a[1..], key, v);
    }
  }

  /** `WithKey` keeps exactly the copies of the elements whose key is `v`. */
  lemma {:induction false} WithKeyMultiset<T>(s: seq<T>, key: T -> int, v: int, x: T)
    ensures multiset(WithKey(s, key, v))[x] == if key(x) == v then multiset(s)[x] else 0
    decreases |s|
  {
    if s != [] {
      WithKeyMultiset(s[1..], key, v, x);
      assert s == [s[0]] + s[1..];
    }
  }

  /** With pairwise distinct keys, at most one element has a given key. */
  lemma {:induction false} WithKeyDistinct<T>(s: seq<T>, key: T -> int, v: int)
    requires forall i, j :: 0 <= i < j < |s| ==> key(s[i]) != key(s[j])
    ensures |WithKey(s, key, v)| <= 1
    decreases |s|
  {
    if s != [] {
      WithKeyDistinct(s[1..], key, v);
      if key(s[0]) == v {
        WithKeyNone(s[1..], key, v);
      }
    }
  }

  /** No element with key `v`, no element kept. */
  lemma {:induction false} WithKeyNone<T>(s: seq<T>, key: T -> int, v: int)
    ensures (forall i :: 0 <= i < |s| ==> key(s[i]) != v) ==> WithKey(s, key, v) == []
    decreases |s|
  {
    if s != [] {
      WithKeyNone(s[1..], key, v);
      assert (forall i :: 0 <= i < |s| ==> key(s[i]) != v) ==>
        (forall i :: 0 <= i < |s[1..]| ==> key(s[1..][i]) != v);
    }
  }

  // ---------------------------------------------------------------------------
  // Insert
  // ---------------------------------------------------------------------------

  lemma {:induction false} InsertMultiset<T>(s: seq<T>, x: T, key: T -> int)
    ensures multiset(Insert(s, x, key)) == multiset(s) + multiset{x}
    decreases |s|
  {
    if s != [] && key(x) <= key(s[0]) {
      InsertMultiset(s[1..], x, key);
      assert s == [s[0]] + s[1..];
    }
  }

  lemma {:induction false} InsertSorted<T>(s: seq<T>, x: T, key: T -> int)
    requires SortedDesc(s, key)
    ensures SortedDesc(Insert(s, x, key), key)
    ensures |Insert(s, x, key)| == |s| + 1
    ensures Insert(s, x, key)[0] == x || (s != [] && Insert(s, x, key)[0] == s[0])
    decreases |s|
  {
    if s != [] && key(x) <= key(s[0]) {
      InsertSorted(s[1..], x, key);
    }
  }

  /** Inserting `x` into a sorted sequence puts it after every element with its key. */
  lemma {:induction false} InsertWithKey<T>(s: seq<T>, x: T, key: T -> int, v: int)
    requires SortedDesc(s, key)
    ensures WithKey(Insert(s, x, key), key, v) == WithKey(s, key, v) + WithKey([x], key, v)
    decreases |s|
  {
    if s == [] {
    } else if key(x) > key(s[0]) {
      if key(x) == v {
        WithKeyNone(s, key, v);
      }
    } else {
      InsertWithKey(s[1..], x, key, v);
    }
  }

  // ---------------------------------------------------------------------------
  // SortDesc
  // ---------------------------------------------------------------------------

  /** The sorted sequence is in descending key order. */
  lemma {:induction false} SortDescSorted<T>(s: seq<T>, key: T -> int)
    ensures SortedDesc(SortDesc(s, key), key)
    ensures |SortDesc(s, key)| == |s|
    decreases |s|
  {
    if s != [] {
      SortDescSorted(s[..|s| - 1], key);
      InsertSorted(SortDesc(s[..|s| - 1], key), s[|s| - 1], key);
    }
  }

  /** The sorted sequence is a permutation of the input. */
  lemma {:induction false} SortDescPermutes<T>(s: seq<T>, key: T -> int)
    ensures multiset(SortDesc(s, key)) == multiset(s)
    decreases |s|
  {
    if s != [] {
      SortDescPermutes(s[..|s| - 1], key);
      InsertMultiset(SortDesc(s[..|s| - 1], key), s[|s| - 1], key);
      assert s == s[..|s| - 1] + [s[|s| - 1]];
    }
  }

  /** The sort is stable: elements sharing a key come out in the order they went in. */
  lemma {:induction false} SortDescStable<T>(s: seq<T>, key: T -> int, v: int)
    ensures WithKey(SortDesc(s, key), key, v) == WithKey(s, key, v)
    decreases |s|
  {
    if s != [] {
      var init := s[..|s| - 1];
      SortDescStable(init, key, v);
      SortDescSorted(init, key);
      InsertWithKey(SortDesc(init, key), s[|s| - 1], key, v);
      assert s == init + [s[|s| - 1]];
      WithKeyAppend(init, [s[|s| - 1]], key, v);
    }
  }

  /**
   * Sortedness and stability pin the result down: two sequences sorted by descending key
   * that agree on the order of the elements of each key are the same sequence.
   */
  lemma {:induction false} SortedUnique<T>(a: seq<T>, b: seq<T>, key: T -> int)
    requires SortedDesc(a, key) && SortedDesc(b, key)
    requires forall v :: WithKey(a, key, v) == WithKey(b, key, v)
    ensures a == b
    decreases |a| + |b|
  {
    if a == [] || b == [] {
      assert a != [] ==> WithKey(a, key, key(a[0])) != [];
      assert b != [] ==> WithKey(b, key, key(b[0])) != [];
    } else {
      var m := key(a[0]);
      // the largest key of `b` is also that of `a`, and the other way round
      FirstKeyBound(a, b, key);
      FirstKeyBound(b, a, key);
      assert WithKey(a, key, m)[0] == a[0];
      assert WithKey(b, key, m)[0] == b[0];
      assert a[0] == b[0];
      forall v ensures WithKey(a[1..], key, v) == WithKey(b[1..], key, v) {
        var head := if key(a[0]) == v then [a[0]] else [];
        assert WithKey(a, key, v) == head + WithKey(a[1..], key, v);
        assert WithKey(b, key, v) == head + WithKey(b[1..], key, v);
        assert WithKey(a[1..], key, v) == WithKey(a, key, v)[|head|..];
        assert WithKey(b[1..], key, v) == WithKey(b, key, v)[|head|..];
      }
      SortedUnique(a[1..], b[1..], key);
      assert a == [a[0]] + a[1..];
      assert b == [b[0]] + b[1..];
    }
  }

  /**
   * When no two elements share a key, the sorted result does not depend on the order in
   * which the elements were supplied.
   */
  lemma SortDescIgnoresOrder<T>(s1: seq<T>, s2: seq<T>, key: T -> int)
    requires multiset(s1) == multiset(s2)
    requires forall i, j :: 0 <= i < j < |s1| ==> key(s1[i]) != key(s1[j])
    ensures SortDesc(s1, key) == SortDesc(s2, key)
  {
    SortDescSorted(s1, key);
    SortDescSorted(s2, key);
    forall v ensures WithKey(SortDesc(s1, key), key, v) == WithKey(SortDesc(s2, key), key, v) {
      SortDescStable(s1, key, v);
      SortDescStable(s2, key, v);
      SameKeyedElements(s1, s2, key, v);
    }
    SortedUnique(SortDesc(s1, key), SortDesc(s2, key), key);
  }

  /** Permutations with pairwise distinct keys hold the same element, if any, for each key. */
  lemma SameKeyedElements<T>(s1: seq<T>, s2: seq<T>, key: T -> int, v: int)
    requires multiset(s1) == multiset(s2)
    requires forall i, j :: 0 <= i < j < |s1| ==> key(s1[i]) != key(s1[j])
    ensures WithKey(s1, key, v) == WithKey(s2, key, v)
  {
    var w1, w2 := WithKey(s1, key, v), WithKey(s2, key, v);
    forall x ensures multiset(w1)[x] == multiset(w2)[x] {
      WithKeyMultiset(s1, key, v, x);
      WithKeyMultiset(s2, key, v, x);
    }
    MultisetsAgree(w1, w2);
    WithKeyDistinct(s1, key, v);
    assert |w2| == |multiset(w2)| == |multiset(w1)| == |w1|;
    if |w1| == 1 {
      assert w1[0] in multiset(w2);
      assert w2 == [w2[0]];
    }
  }

  lemma MultisetsAgree<T>(w1: seq<T>, w2: seq<T>)
    requires forall x :: multiset(w1)[x] == multiset(w2)[x]
    ensures multiset(w1) == multiset(w2)
  {
  }

  /** Every element `WithKey` keeps is an element of `s` with key `v`. */
  lemma {:induction false} WithKeyMembers<T>(s: seq<T>, key: T -> int, v: int)
    ensures forall x :: x in WithKey(s, key, v) ==> x in s && key(x) == v
    decreases |s|
  {
    if s != [] {
      WithKeyMembers(s[1..], key, v);
    }
  }

  /** If `a` holds every key `b` starts with, the first key of sorted `a` is at least as large. */
  lemma FirstKeyBound<T>(a: seq<T>, b: seq<T>, key: T -> int)
    requires SortedDesc(a, key) && a != [] && b != []
    requires WithKey(a, key, key(b[0])) == WithKey(b, key, key(b[0]))
    ensures key(b[0]) <= key(a[0])
  {
    var w := WithKey(b, key, key(b[0]));
    assert w[0] == b[0];
    WithKeyMembers(a, key, key(b[0]));
    assert b[0] in a;
    var i :| 0 <= i < |a| && a[i] == b[0];
    assert i == 0 || key(a[0]) >= key(a[i]);
  }
}
