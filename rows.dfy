/** Building blocks shared by the in-memory models of the SQLite tables: optional
    results, the abstract clock, and the row-set operations that SQL queries
    perform (WHERE filters, first-row lookups, ORDER BY, the largest id). */
module Rows {

  datatype Option<T> = None | Some(value: T)

  /** An opaque value of the store's clock (`CURRENT_TIMESTAMP` or
      `Date.toDateString()`); a larger value is later. */
  type Timestamp = int

  /** `s` is in non-decreasing order of `key`. */
  ghost predicate SortedBy<T>(s: seq<T>, key: T -> int) {
    forall i, j :: 0 <= i < j < |s| ==> key(s[i]) <= key(s[j])
  }

  /** No two rows of `s` share a `key` (a PRIMARY KEY or UNIQUE column). */
  ghost predicate DistinctBy<T>(s: seq<T>, key: T -> int) {
    forall i, j :: 0 <= i < j < |s| ==> key(s[i]) != key(s[j])
  }

  /** The rows of `s`, in their original order (a WHERE clause). */
  function Filter<T>(s: seq<T>, keep: T -> bool): (r: seq<T>)
    ensures forall x :: x in r ==> x in s && keep(x)
    ensures forall x :: x in s && keep(x) ==> x in r
    ensures multiset(r) <= multiset(s)
    ensures |r| <= |s|
    ensures |r| == |s| <==> forall i :: 0 <= i < |s| ==> keep(s[i])
  {
    if s == [] then []
    else
      var rest := Filter(s[1..], keep);
      assert s == [s[0]] + s[1..];
      assert (forall i :: 0 <= i < |s| ==> keep(s[i])) <==>
        keep(s[0]) && forall i :: 0 <= i < |s[1..]| ==> keep(s[1..][i]) by {
        assert forall i :: 1 <= i < |s| ==> s[i] == s[1..][i - 1];
      }
      if keep(s[0]) then [s[0]] + rest else rest
  }

  /** The first row of `s` that satisfies `p`, or None when there is none. */
  function FirstWhere<T>(s: seq<T>, p: T -> bool): (r: Option<T>)
    ensures r.Some? <==> exists i :: 0 <= i < |s| && p(s[i])
    ensures r.Some? ==> r.value in s && p(r.value)
  {
    if s == [] then None
    else if p(s[0]) then Some(s[0])
    else
      var r := FirstWhere(s[1..], p);
      assert forall i :: 1 <= i < |s| ==> s[i] == s[1..][i - 1];
      r
  }

  /** `x` placed into the sorted `s` before the first element with a larger or equal key. */
  function Insert<T>(x: T, s: seq<T>, key: T -> int): (r: seq<T>)
    requires SortedBy(s, key)
    ensures SortedBy(r, key)
    ensures multiset(r) == multiset(s) + multiset{x}
  {
    if s == [] then [x]
    else if key(x) <= key(s[0]) then [x] + s
    else
      TailSorted(s, key);
      var rest := Insert(x, s[1..], key);
      InsertBehindHead(x, s, key, rest);
      [s[0]] + rest
  }

  lemma TailSorted<T>(s: seq<T>, key: T -> int)
    requires s != [] && SortedBy(s, key)
    ensures SortedBy(s[1..], key)
  {
    var tail := s[1..];
    forall i, j | 0 <= i < j < |tail|
      ensures key(tail[i]) <= key(tail[j])
    {
      assert tail[i] == s[i + 1] && tail[j] == s[j + 1];
    }
  }

  /** The step of `Insert` that keeps the head: `x` goes after it, into the tail. */
  lemma InsertBehindHead<T>(x: T, s: seq<T>, key: T -> int, rest: seq<T>)
    requires s != [] && SortedBy(s, key) && key(s[0]) < key(x)
    requires SortedBy(rest, key) && multiset(rest) == multiset(s[1..]) + multiset{x}
    ensures SortedBy([s[0]] + rest, key)
    ensures multiset([s[0]] + rest) == multiset(s) + multiset{x}
  {
    var tail := s[1..];
    assert s == [s[0]] + tail;
    var r := [s[0]] + rest;
    forall y | y in rest
      ensures key(s[0]) <= key(y)
    {
      assert y in multiset(rest);
      if y != x {
        assert y in multiset(tail);
        var k :| 0 <= k < |tail| && tail[k] == y;
        assert s[k + 1] == y;
      }
    }
    forall i, j | 0 <= i < j < |r|
      ensures key(r[i]) <= key(r[j])
    {
      assert r[j] == rest[j - 1];
      assert rest[j - 1] in rest;
      if i > 0 {
        assert r[i] == rest[i - 1];
      }
    }
  }

  /** The rows of `s` in ascending order of `key` (an ORDER BY clause); the
      order among rows with equal keys is not specified. */
  function SortBy<T>(s: seq<T>, key: T -> int): (r: seq<T>)
    ensures SortedBy(r, key)
    ensures multiset(r) == multiset(s)
  {
    if s == [] then []
    else
      assert s == [s[0]] + s[1..];
      Insert(s[0], SortBy(s[1..], key), key)
  }

  /** `s` is in non-increasing order of `key` (ORDER BY ... DESC). */
  ghost predicate DescendingBy<T>(s: seq<T>, key: T -> int) {
    forall i, j :: 0 <= i < j < |s| ==> key(s[i]) >= key(s[j])
  }

  function Negated<T>(key: T -> int): T -> int { (x: T) => -key(x) }

  lemma AscendingNegatedIsDescending<T>(s: seq<T>, key: T -> int)
    requires SortedBy(s, Negated(key))
    ensures DescendingBy(s, key)
  {
    forall i, j | 0 <= i < j < |s|
      ensures key(s[i]) >= key(s[j])
    {
      assert Negated(key)(s[i]) <= Negated(key)(s[j]);
    }
  }

  /** The rows of `s` in descending order of `key` (`ORDER BY key DESC`),
      sorted as ascending order of the negated key; the order among rows
      with equal keys is not specified. */
  function SortDescending<T>(s: seq<T>, key: T -> int): (r: seq<T>)
    ensures DescendingBy(r, key)
    ensures multiset(r) == multiset(s)
  {
    var r := SortBy(s, Negated(key));
    AscendingNegatedIsDescending(r, key);
    r
  }

  /** The largest key in `s`, or 0 when `s` is empty: the value SQLite's
      AUTOINCREMENT counter takes when rows are copied with their ids into a
      fresh table. */
  function MaxKey<T>(s: seq<T>, key: T -> int): (m: int)
    ensures m >= 0
    ensures forall i :: 0 <= i < |s| ==> key(s[i]) <= m
    ensures m == 0 || exists i :: 0 <= i < |s| && key(s[i]) == m
  {
    if s == [] then 0
    else
      var rest := MaxKey(s[1..], key);
      assert forall i :: 1 <= i < |s| ==> s[i] == s[1..][i - 1];
      if key(s[0]) > rest then key(s[0]) else rest
  }

  /** A head whose key no later row shares, in front of a duplicate-free
      selection of those rows, is duplicate-free. */
  lemma ConsDistinctBy<T>(head: T, rest: seq<T>, tail: seq<T>, key: T -> int)
    requires DistinctBy(rest, key)
    requires forall y :: y in rest ==> y in tail
    requires forall k :: 0 <= k < |tail| ==> key(tail[k]) != key(head)
    ensures DistinctBy([head] + rest, key)
  {
    var r := [head] + rest;
    forall i, j | 0 <= i < j < |r|
      ensures key(r[i]) != key(r[j])
    {
      assert r[j] == rest[j - 1];
      if i == 0 {
        assert rest[j - 1] in tail;
      } else {
        assert r[i] == rest[i - 1];
      }
    }
  }

  /** A WHERE filter keeps a key column duplicate-free. */
  lemma {:induction false} FilterDistinctBy<T>(s: seq<T>, keep: T -> bool, key: T -> int)
    requires DistinctBy(s, key)
    ensures DistinctBy(Filter(s, keep), key)
  {
    if s != [] {
      var tail := s[1..];
      assert DistinctBy(tail, key) by {
        forall i, j | 0 <= i < j < |tail|
          ensures key(tail[i]) != key(tail[j])
        {
          assert tail[i] == s[i + 1] && tail[j] == s[j + 1];
        }
      }
      FilterDistinctBy(tail, keep, key);
      if keep(s[0]) {
        assert forall k :: 0 <= k < |tail| ==> tail[k] == s[k + 1];
        ConsDistinctBy(s[0], Filter(tail, keep), tail, key);
      }
    }
  }
}
