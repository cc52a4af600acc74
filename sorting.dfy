/**
 * `Array.prototype.sort` with a numeric comparator `(a, b) => key(a) - key(b)`:
 * the stable sort of JavaScript, smallest key first. It is modelled as
 * insertion sort, inserting each element after those with an equal or lower
 * key, so that ties keep their original order as they do in the stable
 * built-in. Two sorts use it: a topic's subtopics, worst compliance first,
 * and the saved diagnoses, most recently updated first.
 */
module Sorting {
  import opened Types

  predicate SortedBy<T>(s: seq<T>, key: T -> real) {
    forall i, j :: 0 <= i < j < |s| ==> key(s[i]) <= key(s[j])
  }

  /** No element has a key below `v`. */
  predicate AllAtLeast<T>(s: seq<T>, key: T -> real, v: real) {
    forall i :: 0 <= i < |s| ==> v <= key(s[i])
  }

  /** Inserts `x` after every leading element whose key is not above its own. */
  function Insert<T>(x: T, s: seq<T>, key: T -> real): seq<T>
    decreases |s|
  {
    if s == [] then [x]
    else if key(x) < key(s[0]) then [x] + s
    else [s[0]] + Insert(x, s[1..], key)
  }

  lemma {:induction false} InsertPermutes<T>(x: T, s: seq<T>, key: T -> real)
    ensures multiset(Insert(x, s, key)) == multiset(s) + multiset{x}
    decreases |s|
  {
    if s != [] && key(x) >= key(s[0]) {
      InsertPermutes(x, s[1..], key);
      assert s == [s[0]] + s[1..];
    }
  }

  lemma {:induction false} InsertKeepsBound<T>(x: T, s: seq<T>, key: T -> real, v: real)
    requires AllAtLeast(s, key, v) && v <= key(x)
    ensures AllAtLeast(Insert(x, s, key), key, v)
    decreases |s|
  {
    if s != [] && key(x) >= key(s[0]) {
      InsertKeepsBound(x, s[1..], key, v);
    }
  }

  lemma {:induction false} InsertSorted<T>(x: T, s: seq<T>, key: T -> real)
    requires SortedBy(s, key)
    ensures SortedBy(Insert(x, s, key), key)
    decreases |s|
  {
    if s != [] && key(x) >= key(s[0]) {
      var rest := s[1..];
      InsertSorted(x, rest, key);
      InsertKeepsBound(x, rest, key, key(s[0]));
      var r := Insert(x, s, key);
      assert r == [s[0]] + Insert(x, rest, key);
      forall i, j | 0 <= i < j < |r| ensures key(r[i]) <= key(r[j]) {
        if i > 0 {
          assert r[i] == Insert(x, rest, key)[i - 1] && r[j] == Insert(x, rest, key)[j - 1];
        }
      }
    } else if s != [] {
      var r := Insert(x, s, key);
      forall i, j | 0 <= i < j < |r| ensures key(r[i]) <= key(r[j]) {
        if i > 0 {
          assert r[i] == s[i - 1] && r[j] == s[j - 1];
        }
      }
    }
  }

  /** The stable ascending sort: sorted by `key`, and the same elements. */
  function SortBy<T>(s: seq<T>, key: T -> real): (r: seq<T>)
    ensures SortedBy(r, key)
    ensures multiset(r) == multiset(s)
    decreases |s|
  {
    if s == [] then []
    else
      var init := s[..|s| - 1];
      var last := s[|s| - 1];
      assert s == init + [last];
      var sortedInit := SortBy(init, key);
      InsertSorted(last, sortedInit, key);
      InsertPermutes(last, sortedInit, key);
      Insert(last, sortedInit, key)
  }

  /** The elements of `s` whose key is `v`, in their order in `s`. */
  function WithKey<T>(s: seq<T>, key: T -> real, v: real): seq<T>
    decreases |s|
  {
    if s == [] then []
    else (if key(s[0]) == v then [s[0]] else []) + WithKey(s[1..], key, v)
  }

  lemma {:induction false} WithKeyConcat<T>(a: seq<T>, b: seq<T>, key: T -> real, v: real)
    ensures WithKey(a + b, key, v) == WithKey(a, key, v) + WithKey(b, key, v)
    decreases |a|
  {
    if a != [] {
      assert (a + b)[0] == a[0];
      assert (a + b)[1..] == a[1..] + b;
      WithKeyConcat(a[1..], b, key, v);
    } else {
      assert a + b == b;
    }
  }

  lemma {:induction false} WithKeyNone<T>(s: seq<T>, key: T -> real, v: real)
    requires forall i :: 0 <= i < |s| ==> v < key(s[i])
    ensures WithKey(s, key, v) == []
    decreases |s|
  {
    if s != [] {
      WithKeyNone(s[1..], key, v);
    }
  }

  /** `Insert` places its element after every element of equal key. */
  lemma {:induction false} WithKeyInsert<T>(x: T, s: seq<T>, key: T -> real, v: real)
    requires SortedBy(s, key)
    ensures WithKey(Insert(x, s, key), key, v) == WithKey(s, key, v) + (if key(x) == v then [x] else [])
    decreases |s|
  {
    if s == [] {
    } else if key(x) < key(s[0]) {
      assert ([x] + s)[1..] == s;
      if key(x) == v {
        WithKeyNone(s, key, v);
      }
    } else {
      var rest := s[1..];
      assert SortedBy(rest, key);
      WithKeyInsert(x, rest, key, v);
      assert ([s[0]] + Insert(x, rest, key))[1..] == Insert(x, rest, key);
    }
  }

  /**
   * The sort is stable: for every key value, the elements with that key come
   * out in the order they went in.
   */
  lemma {:induction false} SortByStable<T>(s: seq<T>, key: T -> real, v: real)
    ensures WithKey(SortBy(s, key), key, v) == WithKey(s, key, v)
    decreases |s|
  {
    if s != [] {
      var init, last := s[..|s| - 1], s[|s| - 1];
      assert s == init + [last];
      SortByStable(init, key, v);
      WithKeyInsert(last, SortBy(init, key), key, v);
      WithKeyConcat(init, [last], key, v);
      assert WithKey([last], key, v) == if key(last) == v then [last] else [];
    }
  }

  // ---------------------------------------------------------------------
  // Duplicates.

  predicate Distinct<T(==)>(s: seq<T>) {
    forall i, j :: 0 <= i < j < |s| ==> s[i] != s[j]
  }

  /** Two positions holding the same element count it twice. */
  lemma CountsTwice<T>(s: seq<T>, i: int, j: int)
    requires 0 <= i < j < |s| && s[i] == s[j]
    ensures multiset(s)[s[i]] >= 2
  {
    assert s == s[..j] + s[j..];
    assert s[i] in s[..j];
    assert s[j] in s[j..];
  }

  /** A sequence without duplicates holds each element at most once. */
  lemma {:induction false} DistinctCountsOnce<T>(s: seq<T>, x: T)
    requires Distinct(s)
    ensures multiset(s)[x] <= 1
    decreases |s|
  {
    if s != [] {
      var init, last := s[..|s| - 1], s[|s| - 1];
      assert s == init + [last];
      DistinctCountsOnce(init, x);
      if x == last {
        assert x !in init;
      }
    }
  }

  /** A permutation of a sequence without duplicates has none. */
  lemma PermutationDistinct<T>(r: seq<T>, s: seq<T>)
    requires multiset(r) == multiset(s) && Distinct(s)
    ensures Distinct(r)
  {
    forall i, j | 0 <= i < j < |r| ensures r[i] != r[j] {
      if r[i] == r[j] {
        CountsTwice(r, i, j);
        DistinctCountsOnce(s, r[i]);
      }
    }
  }

  function ComplianceOf(c: SubtopicCompliance): real {
    c.compliance
  }

  predicate SortedByCompliance(s: seq<SubtopicCompliance>) {
    forall i, j :: 0 <= i < j < |s| ==> s[i].compliance <= s[j].compliance
  }

  /** `subtopics.sort((a, b) => a.compliance - b.compliance)`: worst compliance first, the same elements. */
  function SortByCompliance(s: seq<SubtopicCompliance>): (r: seq<SubtopicCompliance>)
    ensures SortedByCompliance(r)
    ensures multiset(r) == multiset(s)
  {
    var r := SortBy(s, ComplianceOf);
    assert forall i, j :: 0 <= i < j < |r| ==> ComplianceOf(r[i]) <= ComplianceOf(r[j]);
    r
  }
}
