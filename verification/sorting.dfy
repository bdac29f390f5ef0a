/**
 * Descending sort by a real-valued key, as Python's
 * `sorted(xs, key=k, reverse=True)` and an SQL `order by k desc` produce it.
 * The sort is stable: among equal keys the input order is kept, which is
 * what Python guarantees and what this model assumes of the database.
 */
module Sorting {

  /** Keys never increase from left to right. */
  ghost predicate SortedDesc<T>(s: seq<T>, key: T -> real) {
    forall i, j :: 0 <= i < j < |s| ==> key(s[i]) >= key(s[j])
  }

  /** Places `x` in front of the first element whose key is not larger than its own. */
  function Insert<T>(x: T, s: seq<T>, key: T -> real): (r: seq<T>)
    requires SortedDesc(s, key)
    ensures SortedDesc(r, key)
    ensures multiset(r) == multiset(s) + multiset{x}
    ensures |r| == |s| + 1
    ensures forall i :: 0 <= i < |r| ==> r[i] == x || r[i] in s
  {
    if s == [] || key(s[0]) <= key(x) then
      SortedCons(x, s, key);
      [x] + s
    else
      var tail := Insert(x, s[1..], key);
      assert s == [s[0]] + s[1..];
      InsertBehindHead(x, s, tail, key);
      [s[0]] + tail
  }

  /** A sorted sequence stays sorted behind a head whose key bounds its first key. */
  lemma SortedCons<T>(h: T, s: seq<T>, key: T -> real)
    requires SortedDesc(s, key)
    requires s != [] ==> key(s[0]) <= key(h)
    ensures SortedDesc([h] + s, key)
  {
    var r := [h] + s;
    forall i, j | 0 <= i < j < |r| ensures key(r[i]) >= key(r[j]) {
      if i == 0 && j > 1 {
        assert r[j] == s[j - 1] && key(s[0]) >= key(s[j - 1]);
      }
    }
  }

  /**
   * The recursive case of `Insert`: the head of `s` outranks `x` and every
   * later element of `s`, so it can stay in front of the insertion into the rest.
   */
  lemma InsertBehindHead<T>(x: T, s: seq<T>, tail: seq<T>, key: T -> real)
    requires s != [] && SortedDesc(s, key) && key(s[0]) > key(x)
    requires SortedDesc(tail, key)
    requires forall i :: 0 <= i < |tail| ==> tail[i] == x || tail[i] in s[1..]
    ensures SortedDesc([s[0]] + tail, key)
    ensures forall i :: 0 <= i < |tail| + 1 ==> ([s[0]] + tail)[i] == x || ([s[0]] + tail)[i] in s
  {
    var r := [s[0]] + tail;
    forall i, j | 0 <= i < j < |r| ensures key(r[i]) >= key(r[j]) {
      if i == 0 {
        assert r[j] == tail[j - 1];
        if r[j] != x {
          var k :| 0 <= k < |s[1..]| && s[1..][k] == r[j];
          assert s[k + 1] == r[j];
        }
      }
    }
    forall i | 0 <= i < |r| ensures r[i] == x || r[i] in s {
      if i > 0 {
        assert r[i] == tail[i - 1];
      }
    }
  }

  /** `sorted(s, key=key, reverse=True)`. */
  function SortDesc<T>(s: seq<T>, key: T -> real): (r: seq<T>)
    ensures SortedDesc(r, key)
    ensures multiset(r) == multiset(s)
    ensures |r| == |s|
  {
    if s == [] then []
    else
      assert s == [s[0]] + s[1..];
      Insert(s[0], SortDesc(s[1..], key), key)
  }

  /** The first element of a sorted permutation carries the largest key. */
  lemma HeadIsMax<T>(s: seq<T>, key: T -> real, y: T)
    requires y in s
    ensures SortDesc(s, key) != [] && key(SortDesc(s, key)[0]) >= key(y)
  {
    var r := SortDesc(s, key);
    assert y in multiset(s);
    assert y in multiset(r);
    var j :| 0 <= j < |r| && r[j] == y;
    if j > 0 { assert key(r[0]) >= key(r[j]); }
  }

  /** Every element of a sorted permutation comes from the input. */
  lemma SortedFromInput<T>(s: seq<T>, key: T -> real, i: int)
    requires 0 <= i < |s|
    ensures SortDesc(s, key)[i] in s
  {
    var r := SortDesc(s, key);
    assert r[i] in multiset(r);
  }

  /**
   * An input element missing from the first `m` places of the sorted permutation
   * leaves some place after them and has a key no larger than theirs.
   */
  lemma PrefixLeftOut<T>(s: seq<T>, key: T -> real, m: nat, e: T)
    requires e in s && m <= |s| && e !in SortDesc(s, key)[..m]
    ensures m < |s|
    ensures forall k :: 0 <= k < m ==> key(e) <= key(SortDesc(s, key)[k])
  {
    var r := SortDesc(s, key);
    assert e in multiset(r);
    var j :| 0 <= j < |r| && r[j] == e;
    assert j >= m;
  }
}
