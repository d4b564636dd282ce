/**
  Sorting by an integer key, standing in for Array.prototype.sort with a comparator
  that subtracts two keys. The engine's sort is not promised to be stable, so what
  is proved here is only what any such sort delivers: the result is ordered by the
  key and is a permutation of the input. The insertion sort below fixes one order
  among elements with equal keys; nothing else in the model depends on which.
*/
module Sorting {

  /** `s` is ordered non-decreasingly by `key`. */
  predicate SortedByKey<T>(s: seq<T>, key: T -> int) {
    forall i, j :: 0 <= i < j < |s| ==> key(s[i]) <= key(s[j])
  }

  /** `x` placed before the first element of `s` whose key is not smaller than its own. */
  function InsertByKey<T>(x: T, s: seq<T>, key: T -> int): (r: seq<T>)
    ensures |r| == |s| + 1
  {
    if s == [] || key(x) <= key(s[0]) then [x] + s
    else [s[0]] + InsertByKey(x, s[1..], key)
  }

  /** Dropping the first element keeps a sequence ordered. */
  lemma SortedTail<T>(s: seq<T>, key: T -> int)
    requires s != [] && SortedByKey(s, key)
    ensures SortedByKey(s[1..], key)
  {
    var rest := s[1..];
    forall i, j | 0 <= i < j < |rest| ensures key(rest[i]) <= key(rest[j]) {
      assert rest[i] == s[i + 1] && rest[j] == s[j + 1];
    }
  }

  /** An element no larger than everything of an ordered sequence can go in front of it. */
  lemma SortedCons<T>(y: T, t: seq<T>, key: T -> int)
    requires SortedByKey(t, key)
    requires forall k :: 0 <= k < |t| ==> key(y) <= key(t[k])
    ensures SortedByKey([y] + t, key)
  {
    var r := [y] + t;
    forall i, j | 0 <= i < j < |r| ensures key(r[i]) <= key(r[j]) {
      assert r[j] == t[j - 1];
      if i > 0 {
        assert r[i] == t[i - 1];
      }
    }
  }

  /** The first element of an ordered sequence is a lower bound of the rest. */
  lemma SortedHead<T>(s: seq<T>, key: T -> int)
    requires s != [] && SortedByKey(s, key)
    ensures forall k :: 0 <= k < |s[1..]| ==> key(s[0]) <= key(s[1..][k])
  {
    forall k | 0 <= k < |s[1..]| ensures key(s[0]) <= key(s[1..][k]) {
      assert s[1..][k] == s[k + 1];
    }
  }

  /** A lower bound of `rest` and of `x` bounds every rearrangement of them. */
  lemma LowerBoundOfPermutation<T>(y: T, x: T, rest: seq<T>, t: seq<T>, key: T -> int)
    requires forall k :: 0 <= k < |rest| ==> key(y) <= key(rest[k])
    requires key(y) <= key(x)
    requires multiset(t) == multiset(rest) + multiset{x}
    ensures forall k :: 0 <= k < |t| ==> key(y) <= key(t[k])
  {
    forall k | 0 <= k < |t| ensures key(y) <= key(t[k]) {
      assert t[k] in multiset(t);
      if t[k] != x {
        assert t[k] in multiset(rest);
        var i :| 0 <= i < |rest| && rest[i] == t[k];
      }
    }
  }

  /** Inserting into an ordered sequence keeps it ordered and adds exactly `x`. */
  lemma {:induction false} InsertByKeySpec<T>(x: T, s: seq<T>, key: T -> int)
    requires SortedByKey(s, key)
    ensures SortedByKey(InsertByKey(x, s, key), key)
    ensures multiset(InsertByKey(x, s, key)) == multiset(s) + multiset{x}
    decreases |s|
  {
    if s != [] && key(x) > key(s[0]) {
      var rest := s[1..];
      assert s == [s[0]] + rest;
      SortedTail(s, key);
      SortedHead(s, key);
      InsertByKeySpec(x, rest, key);
      var t := InsertByKey(x, rest, key);
      LowerBoundOfPermutation(s[0], x, rest, t, key);
      SortedCons(s[0], t, key);
      assert InsertByKey(x, s, key) == [s[0]] + t;
    }
  }

  /** The elements of `s`, reordered so that their keys do not decrease. */
  function SortByKey<T>(s: seq<T>, key: T -> int): (r: seq<T>)
    ensures |r| == |s|
  {
    if s == [] then []
    else InsertByKey(s[0], SortByKey(s[1..], key), key)
  }

  /** Sorting orders by the key and is a permutation of its input. */
  lemma {:induction false} SortByKeySpec<T>(s: seq<T>, key: T -> int)
    ensures SortedByKey(SortByKey(s, key), key)
    ensures multiset(SortByKey(s, key)) == multiset(s)
    decreases |s|
  {
    if s != [] {
      assert s == [s[0]] + s[1..];
      SortByKeySpec(s[1..], key);
      InsertByKeySpec(s[0], SortByKey(s[1..], key), key);
    }
  }

  /** Sorting keeps exactly the elements it was given. */
  lemma SortByKeyMembers<T>(s: seq<T>, key: T -> int, x: T)
    ensures x in SortByKey(s, key) <==> x in s
  {
    SortByKeySpec(s, key);
    var r := SortByKey(s, key);
    assert x in r <==> x in multiset(r);
    assert x in s <==> x in multiset(s);
  }
}
