/**
 * Sequence operations the backend and the screens use on Python lists and
 * JavaScript arrays: prefix slices, `filter` by inequality, `list.remove`,
 * and order-preserving de-duplication.
 */
module Lists {

  /** No value occurs twice. */
  predicate NoDup<T(==)>(s: seq<T>) {
    forall i, j :: 0 <= i < j < |s| ==> s[i] != s[j]
  }

  /** Python's `s[:n]` for `n >= 0`: the first `min(n, |s|)` elements. */
  function Take<T>(s: seq<T>, n: nat): (r: seq<T>)
    ensures |r| <= n && |r| <= |s|
    ensures |r| == n || |r| == |s|
    ensures forall i :: 0 <= i < |r| ==> r[i] == s[i]
  {
    if n < |s| then s[..n] else s
  }

  /** JavaScript's `s.filter(y => y !== x)`: every element different from `x`, in order. */
  function Without<T(==,!new)>(s: seq<T>, x: T): (r: seq<T>)
    ensures x !in r
    ensures forall y :: y != x ==> multiset(r)[y] == multiset(s)[y]
  {
    if s == [] then []
    else
      assert s == [s[0]] + s[1..];
      if s[0] == x then Without(s[1..], x) else [s[0]] + Without(s[1..], x)
  }

  /** Filtering distributes over concatenation, so the kept elements stay in their order. */
  lemma {:induction false} WithoutAppend<T(!new)>(a: seq<T>, b: seq<T>, x: T)
    ensures Without(a + b, x) == Without(a, x) + Without(b, x)
  {
    if a != [] {
      WithoutAppend(a[1..], b, x);
      assert (a + b)[1..] == a[1..] + b;
    } else {
      assert a + b == b;
    }
  }

  /** Filtering keeps a sequence duplicate-free and only keeps elements it had. */
  lemma {:induction false} WithoutKeepsNoDup<T(!new)>(s: seq<T>, x: T)
    requires NoDup(s)
    ensures NoDup(Without(s, x))
    ensures forall y :: y in Without(s, x) ==> y in s
  {
    if s != [] {
      WithoutKeepsNoDup(s[1..], x);
      var w := Without(s[1..], x);
      if s[0] != x {
        assert s[0] !in s[1..];
        assert s[0] !in w;
        var r := [s[0]] + w;
        forall i, j | 0 <= i < j < |r| ensures r[i] != r[j] {
          if i == 0 { assert r[j] == w[j - 1]; }
          else { assert r[i] == w[i - 1] && r[j] == w[j - 1]; }
        }
      }
    }
  }

  /** Appending a value not yet present keeps a sequence duplicate-free. */
  lemma AppendFreshKeepsNoDup<T>(s: seq<T>, x: T)
    requires NoDup(s) && x !in s
    ensures NoDup(s + [x])
  {
    var r := s + [x];
    forall i, j | 0 <= i < j < |r| ensures r[i] != r[j] {
      if j == |s| { assert r[i] == s[i]; }
    }
  }

  /** The index of the first occurrence of `x`. */
  function FirstIndex<T(==)>(s: seq<T>, x: T): (i: nat)
    requires x in s
    ensures i < |s| && s[i] == x && x !in s[..i]
  {
    if s[0] == x then 0
    else
      var k := FirstIndex(s[1..], x);
      assert s[..k + 1] == [s[0]] + s[1..][..k];
      k + 1
  }

  /**
   * Python's `s.remove(x)` when `x` is present: deletes the first occurrence
   * only. Elements before it keep their places; elements after it move one
   * place to the front.
   */
  function RemoveFirst<T(==)>(s: seq<T>, x: T): (r: seq<T>)
    requires x in s
    ensures |r| == |s| - 1
    ensures forall j :: 0 <= j < FirstIndex(s, x) ==> r[j] == s[j]
    ensures forall j :: FirstIndex(s, x) <= j < |r| ==> r[j] == s[j + 1]
  {
    var i := FirstIndex(s, x);
    s[..i] + s[i + 1..]
  }

  /** `remove` deletes exactly one copy of `x` and keeps every other element. */
  lemma RemoveFirstCount<T>(s: seq<T>, x: T)
    requires x in s
    ensures multiset(RemoveFirst(s, x)) == multiset(s) - multiset{x}
  {
    var k := FirstIndex(s, x);
    assert s == s[..k] + [x] + s[k + 1..];
  }

  /** Removing the value just appended, when it was not there before, gives back the original. */
  lemma RemoveFirstAppended<T>(s: seq<T>, x: T)
    requires x !in s
    ensures RemoveFirst(s + [x], x) == s
  {
    forall i | 0 <= i < |s| ensures (s + [x])[i] != x {
      assert (s + [x])[i] == s[i];
    }
    assert (s + [x])[..|s|] == s;
  }

  /**
   * Order-preserving de-duplication: each distinct value once, at the place of
   * its first occurrence. This is what a Python dict comprehension keyed by the
   * element keeps when it is read back with `.values()`.
   */
  function Dedup<T(==,!new)>(s: seq<T>): (r: seq<T>)
    ensures NoDup(r)
    ensures forall x :: x in r <==> x in s
  {
    if s == [] then []
    else
      var d := Dedup(s[..|s| - 1]);
      var x := s[|s| - 1];
      assert s == s[..|s| - 1] + [x];
      if x in d then d else AppendFreshKeepsNoDup(d, x); d + [x]
  }

  /** The de-duplicated sequence lists values in the order of their first occurrence. */
  lemma {:induction false} DedupKeepsFirstOccurrenceOrder<T(!new)>(s: seq<T>)
    ensures forall i, j :: 0 <= i < j < |Dedup(s)| ==>
              FirstIndex(s, Dedup(s)[i]) < FirstIndex(s, Dedup(s)[j])
  {
    if s != [] {
      var p := s[..|s| - 1];
      var x := s[|s| - 1];
      DedupKeepsFirstOccurrenceOrder(p);
      var d := Dedup(p);
      var r := Dedup(s);
      assert s == p + [x];
      forall y | y in p ensures FirstIndex(s, y) == FirstIndex(p, y) {
        FirstIndexPrefix(p, x, y);
      }
      forall i, j | 0 <= i < j < |r| ensures FirstIndex(s, r[i]) < FirstIndex(s, r[j]) {
        if x in d {
          assert r == d;
          assert FirstIndex(s, r[i]) == FirstIndex(p, d[i]);
          assert FirstIndex(s, r[j]) == FirstIndex(p, d[j]);
        } else {
          assert r == d + [x];
          assert r[i] == d[i] && r[i] in p;
          if j < |d| {
            assert r[j] == d[j];
            assert FirstIndex(s, r[i]) == FirstIndex(p, d[i]);
            assert FirstIndex(s, r[j]) == FirstIndex(p, d[j]);
          } else {
            assert r[j] == x && x !in p;
            assert FirstIndex(s, x) == |p|;
          }
        }
      }
    }
  }

  /** Appending a value does not move the first occurrence of a value already present. */
  lemma {:induction false} FirstIndexPrefix<T>(p: seq<T>, x: T, y: T)
    requires y in p
    ensures FirstIndex(p + [x], y) == FirstIndex(p, y)
  {
    if p[0] != y {
      FirstIndexPrefix(p[1..], x, y);
      assert (p + [x])[1..] == p[1..] + [x];
    }
  }

  /** The concatenation of the parts, in order: the `extend` loop that gathers several result lists. */
  function Flatten<T>(parts: seq<seq<T>>): (r: seq<T>)
    ensures parts == [] ==> r == []
  {
    if parts == [] then [] else Flatten(parts[..|parts| - 1]) + parts[|parts| - 1]
  }

  /** Splitting off the head of the left operand of a concatenation, stated once for any element type. */
  lemma HeadSplit<T>(a: seq<T>, b: seq<T>)
    requires a != []
    ensures a == [a[0]] + a[1..] && a + b == [a[0]] + (a[1..] + b)
  {
  }

  /** Concatenation is associative, stated once for any element type. */
  lemma AppendAssoc<T>(a: seq<T>, b: seq<T>, c: seq<T>)
    ensures a + (b + c) == (a + b) + c
  {
  }

  /** One more part appends exactly that part: the step of the `extend` loop. */
  lemma FlattenSnoc<T>(parts: seq<seq<T>>, p: seq<T>)
    ensures Flatten(parts + [p]) == Flatten(parts) + p
  {
    assert (parts + [p])[..|parts|] == parts;
  }

  /** Concatenating part lists concatenates their flattenings, so every part keeps its place in order. */
  lemma {:induction false} FlattenAppend<T>(a: seq<seq<T>>, b: seq<seq<T>>)
    ensures Flatten(a + b) == Flatten(a) + Flatten(b)
  {
    if b == [] {
      assert a + b == a;
    } else {
      var b', last := b[..|b| - 1], b[|b| - 1];
      assert b == b' + [last];
      calc {
        Flatten(a + b);
        { assert a + b == (a + b') + [last]; }
        Flatten((a + b') + [last]);
        { FlattenSnoc(a + b', last); }
        Flatten(a + b') + last;
        { FlattenAppend(a, b'); }
        (Flatten(a) + Flatten(b')) + last;
        { AppendAssoc(Flatten(a), Flatten(b'), last); }
        Flatten(a) + (Flatten(b') + last);
        { FlattenSnoc(b', last); }
        Flatten(a) + Flatten(b);
      }
    }
  }

  /** A value is in the concatenation exactly when it is in one of the parts. */
  lemma {:induction false} InFlatten<T>(parts: seq<seq<T>>, x: T)
    ensures x in Flatten(parts) <==> exists i :: 0 <= i < |parts| && x in parts[i]
  {
    if parts != [] {
      var p := parts[..|parts| - 1];
      InFlatten(p, x);
      if x in Flatten(p) {
        var i :| 0 <= i < |p| && x in p[i];
        assert parts[i] == p[i];
      }
      if exists i :: 0 <= i < |parts| && x in parts[i] {
        var i :| 0 <= i < |parts| && x in parts[i];
        if i < |p| { assert p[i] == parts[i]; }
      }
    }
  }
}
