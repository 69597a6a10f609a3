/**
 * Insertion sort by an integer key, standing in for the sorting pandas does
 * inside `Series.quantile` (ascending values) and `Series.value_counts`
 * (descending counts).
 */
module Sorting {

  /** Keys never decrease from left to right. */
  predicate SortedBy<T>(s: seq<T>, key: T -> int) {
    forall i, j :: 0 <= i < j < |s| ==> key(s[i]) <= key(s[j])
  }

  /** Every key of `s` is at least `b`. */
  predicate AtLeast<T>(s: seq<T>, key: T -> int, b: int) {
    forall k :: 0 <= k < |s| ==> b <= key(s[k])
  }

  /** A sorted sequence starts with its smallest key, and its tail is sorted. */
  lemma SortedHead<T>(s: seq<T>, key: T -> int)
    requires s != [] && SortedBy(s, key)
    ensures AtLeast(s, key, key(s[0]))
    ensures SortedBy(s[1..], key)
  {
    var tail := s[1..];
    forall i, j | 0 <= i < j < |tail| ensures key(tail[i]) <= key(tail[j]) {
      assert tail[i] == s[i + 1] && tail[j] == s[j + 1];
    }
  }

  /** Putting an element no larger than every key in front keeps a sequence sorted. */
  lemma ConsSorted<T>(x: T, s: seq<T>, key: T -> int)
    requires SortedBy(s, key) && AtLeast(s, key, key(x))
    ensures SortedBy([x] + s, key)
  {
    var r := [x] + s;
    forall i, j | 0 <= i < j < |r| ensures key(r[i]) <= key(r[j]) {
      assert r[j] == s[j - 1];
      if i > 0 {
        assert r[i] == s[i - 1];
      }
    }
  }

  /** A bound on the keys of `s` and on `x` bounds every rearrangement of `s` plus `x`. */
  lemma BoundPermutation<T>(r: seq<T>, s: seq<T>, x: T, key: T -> int, b: int)
    requires multiset(r) == multiset(s) + multiset{x}
    requires AtLeast(s, key, b) && b <= key(x)
    ensures AtLeast(r, key, b)
  {
    forall k | 0 <= k < |r| ensures b <= key(r[k]) {
      assert r[k] in multiset(r);
      if r[k] != x {
        assert r[k] in multiset(s);
        var m :| 0 <= m < |s| && s[m] == r[k];
      }
    }
  }

  /** Inserts `x` into a sorted sequence before the first element with a key not below its own. */
  function Insert<T>(x: T, s: seq<T>, key: T -> int): (r: seq<T>)
    requires SortedBy(s, key)
    ensures SortedBy(r, key)
    ensures multiset(r) == multiset(s) + multiset{x}
  {
    if s == [] then [x]
    else if key(x) <= key(s[0]) then
      SortedHead(s, key);
      ConsSorted(x, s, key);
      [x] + s
    else
      SortedHead(s, key);
      var rest := Insert(x, s[1..], key);
      assert AtLeast(s[1..], key, key(s[0])) by {
        forall k | 0 <= k < |s[1..]| ensures key(s[0]) <= key(s[1..][k]) {
          assert s[1..][k] == s[k + 1];
        }
      }
      BoundPermutation(rest, s[1..], x, key, key(s[0]));
      ConsSorted(s[0], rest, key);
      assert s == [s[0]] + s[1..];
      [s[0]] + rest
  }

  /** A sorted permutation of `s`. */
  function SortBy<T>(s: seq<T>, key: T -> int): (r: seq<T>)
    ensures SortedBy(r, key)
    ensures multiset(r) == multiset(s)
  {
    if s == [] then []
    else
      assert s == [s[0]] + s[1..];
      Insert(s[0], SortBy(s[1..], key), key)
  }

  function Identity(x: int): int { x }

  /** Non-decreasing integers. */
  predicate Ascending(s: seq<int>) {
    SortedBy(s, Identity)
  }

  /** Sorting integers in ascending order. */
  function SortAscending(s: seq<int>): (r: seq<int>)
    ensures Ascending(r)
    ensures multiset(r) == multiset(s)
  {
    SortBy(s, Identity)
  }

  /** Two ascending arrangements of the same non-empty integers start alike. */
  lemma AscendingHeads(a: seq<int>, b: seq<int>)
    requires a != [] && b != [] && Ascending(a) && Ascending(b)
    requires multiset(a) == multiset(b)
    ensures a[0] == b[0]
  {
    SortedHead(a, Identity);
    SortedHead(b, Identity);
    assert a[0] in multiset(b);
    assert b[0] in multiset(a);
    var i :| 0 <= i < |b| && b[i] == a[0];
    var j :| 0 <= j < |a| && a[j] == b[0];
    assert Identity(b[0]) <= Identity(b[i]);
    assert Identity(a[0]) <= Identity(a[j]);
  }

  /** Two ascending arrangements of the same integers are the same sequence. */
  lemma {:induction false} AscendingUnique(a: seq<int>, b: seq<int>)
    requires Ascending(a) && Ascending(b)
    requires multiset(a) == multiset(b)
    ensures a == b
  {
    if a != [] {
      assert b != [] by {
        assert |multiset(b)| == |multiset(a)| == |a|;
      }
      AscendingHeads(a, b);
      SortedHead(a, Identity);
      SortedHead(b, Identity);
      assert a == [a[0]] + a[1..];
      assert b == [b[0]] + b[1..];
      assert multiset(a[1..]) == multiset(b[1..]) by {
        assert multiset(a[1..]) == multiset(a) - multiset{a[0]};
        assert multiset(b[1..]) == multiset(b) - multiset{b[0]};
      }
      AscendingUnique(a[1..], b[1..]);
    }
  }

  /** Sorting only depends on the multiset of the input: permuting the records first changes nothing. */
  lemma SortAscendingPermutation(a: seq<int>, b: seq<int>)
    requires multiset(a) == multiset(b)
    ensures SortAscending(a) == SortAscending(b)
  {
    AscendingUnique(SortAscending(a), SortAscending(b));
  }

  /** The sum of `g` over `s`. */
  function SumBy<T>(s: seq<T>, g: T -> int): int {
    if s == [] then 0 else g(s[0]) + SumBy(s[1..], g)
  }

  /** No two elements of `s` agree on `f`. */
  predicate DistinctBy<T>(s: seq<T>, f: T -> int) {
    forall i, j :: 0 <= i < j < |s| ==> f(s[i]) != f(s[j])
  }

  /** No element of `s` has `v` as its `f`. */
  predicate Avoids<T>(s: seq<T>, f: T -> int, v: int) {
    forall k :: 0 <= k < |s| ==> f(s[k]) != v
  }

  /** The tail of a distinct sequence is distinct and avoids the head. */
  lemma DistinctHead<T>(s: seq<T>, f: T -> int)
    requires s != [] && DistinctBy(s, f)
    ensures DistinctBy(s[1..], f)
    ensures Avoids(s[1..], f, f(s[0]))
  {
    var tail := s[1..];
    forall i, j | 0 <= i < j < |tail| ensures f(tail[i]) != f(tail[j]) {
      assert tail[i] == s[i + 1] && tail[j] == s[j + 1];
    }
    forall k | 0 <= k < |tail| ensures f(tail[k]) != f(s[0]) {
      assert tail[k] == s[k + 1];
    }
  }

  /** Putting an element whose `f` no element has in front keeps a sequence distinct. */
  lemma ConsDistinct<T>(x: T, s: seq<T>, f: T -> int)
    requires DistinctBy(s, f) && Avoids(s, f, f(x))
    ensures DistinctBy([x] + s, f)
  {
    var r := [x] + s;
    forall i, j | 0 <= i < j < |r| ensures f(r[i]) != f(r[j]) {
      assert r[j] == s[j - 1];
      if i > 0 {
        assert r[i] == s[i - 1];
      }
    }
  }

  /** What `s` and `x` avoid, every rearrangement of `s` plus `x` avoids. */
  lemma AvoidPermutation<T>(r: seq<T>, s: seq<T>, x: T, f: T -> int, v: int)
    requires multiset(r) == multiset(s) + multiset{x}
    requires Avoids(s, f, v) && f(x) != v
    ensures Avoids(r, f, v)
  {
    forall k | 0 <= k < |r| ensures f(r[k]) != v {
      assert r[k] in multiset(r);
      if r[k] != x {
        assert r[k] in multiset(s);
        var m :| 0 <= m < |s| && s[m] == r[k];
      }
    }
  }

  lemma {:induction false} InsertSum<T>(x: T, s: seq<T>, key: T -> int, g: T -> int)
    requires SortedBy(s, key)
    ensures SumBy(Insert(x, s, key), g) == g(x) + SumBy(s, g)
  {
    if s != [] && key(x) > key(s[0]) {
      SortedHead(s, key);
      InsertSum(x, s[1..], key, g);
      var r := Insert(x, s, key);
      assert r[1..] == Insert(x, s[1..], key);
    } else if s != [] {
      assert ([x] + s)[1..] == s;
    }
  }

  /** Sorting does not change a sum. */
  lemma {:induction false} SortBySum<T>(s: seq<T>, key: T -> int, g: T -> int)
    ensures SumBy(SortBy(s, key), g) == SumBy(s, g)
  {
    if s != [] {
      SortBySum(s[1..], key, g);
      InsertSum(s[0], SortBy(s[1..], key), key, g);
    }
  }

  lemma {:induction false} InsertDistinct<T>(x: T, s: seq<T>, key: T -> int, f: T -> int)
    requires SortedBy(s, key) && DistinctBy(s, f)
    requires Avoids(s, f, f(x))
    ensures DistinctBy(Insert(x, s, key), f)
  {
    if s == [] {
    } else if key(x) <= key(s[0]) {
      ConsDistinct(x, s, f);
    } else {
      var tail := s[1..];
      SortedHead(s, key);
      DistinctHead(s, f);
      assert Avoids(tail, f, f(x)) by {
        forall k | 0 <= k < |tail| ensures f(tail[k]) != f(x) {
          assert tail[k] == s[k + 1];
        }
      }
      InsertDistinct(x, tail, key, f);
      var rest := Insert(x, tail, key);
      assert f(x) != f(s[0]);
      AvoidPermutation(rest, tail, x, f, f(s[0]));
      ConsDistinct(s[0], rest, f);
      assert Insert(x, s, key) == [s[0]] + rest;
    }
  }

  /** Sorting keeps elements pairwise distinct on `f`. */
  lemma {:induction false} SortByDistinct<T>(s: seq<T>, key: T -> int, f: T -> int)
    requires DistinctBy(s, f)
    ensures DistinctBy(SortBy(s, key), f)
  {
    if s != [] {
      var tail := s[1..];
      DistinctHead(s, f);
      SortByDistinct(tail, key, f);
      var sorted := SortBy(tail, key);
      assert Avoids(sorted, f, f(s[0])) by {
        forall k | 0 <= k < |sorted| ensures f(sorted[k]) != f(s[0]) {
          assert sorted[k] in multiset(tail);
          var m :| 0 <= m < |tail| && tail[m] == sorted[k];
        }
      }
      InsertDistinct(s[0], sorted, key, f);
    }
  }

  /** Pairwise different integers are distinct under `Identity`. */
  lemma DistinctInts(s: seq<int>)
    requires forall i, j :: 0 <= i < j < |s| ==> s[i] != s[j]
    ensures DistinctBy(s, Identity)
  {
  }

  /** In a sequence of distinct integers each value occurs at most once. */
  lemma {:induction false} DistinctOccursOnce(s: seq<int>, x: int)
    requires DistinctBy(s, Identity)
    ensures multiset(s)[x] == if x in s then 1 else 0
  {
    if s != [] {
      var tail := s[1..];
      assert s == [s[0]] + tail;
      DistinctHead(s, Identity);
      DistinctOccursOnce(tail, x);
      if x == s[0] {
        assert x !in tail by {
          forall k | 0 <= k < |tail| ensures tail[k] != x {
            assert Identity(tail[k]) != Identity(s[0]);
          }
        }
      }
    }
  }

  /** Two sequences of distinct integers with the same members are permutations of each other. */
  lemma SameMembersPermute(a: seq<int>, b: seq<int>)
    requires DistinctBy(a, Identity) && DistinctBy(b, Identity)
    requires forall x :: x in a <==> x in b
    ensures multiset(a) == multiset(b)
  {
    forall x ensures multiset(a)[x] == multiset(b)[x] {
      DistinctOccursOnce(a, x);
      DistinctOccursOnce(b, x);
    }
  }
}
