/**
 * `Array.prototype.sort` with a comparator of the form `(a, b) => key(b) - key(a)`:
 * a stable sort into descending key order. `Sort` is the reference (insertion
 * sort, which is stable); `SortInPlace` sorts an array in place and is proved
 * to produce exactly `Sort` of the original contents.
 */
module StableSort {
  import opened Lists

  predicate Descending<T>(s: seq<T>, key: T -> int) {
    forall i, j :: 0 <= i < j < |s| ==> key(s[i]) >= key(s[j])
  }

  /** Places `x` directly after the last element whose key is at least `key(x)`. */
  function Insert<T>(t: seq<T>, x: T, key: T -> int): (r: seq<T>)
    ensures |r| == |t| + 1
    decreases |t|
  {
    if t == [] then [x]
    else if key(t[|t| - 1]) >= key(x) then t + [x]
    else Insert(t[..|t| - 1], x, key) + [t[|t| - 1]]
  }

  /** Sorts `s` into descending key order, keeping equal keys in their original order. */
  function Sort<T>(s: seq<T>, key: T -> int): (r: seq<T>)
    ensures |r| == |s|
  {
    if s == [] then [] else Insert(Sort(s[..|s| - 1], key), s[|s| - 1], key)
  }

  lemma {:induction false} InsertPermutes<T>(t: seq<T>, x: T, key: T -> int)
    ensures multiset(Insert(t, x, key)) == multiset(t) + multiset{x}
    decreases |t|
  {
    if t != [] && key(t[|t| - 1]) < key(x) {
      var p := t[..|t| - 1];
      assert t == p + [t[|t| - 1]];
      InsertPermutes(p, x, key);
    }
  }

  lemma {:induction false} InsertDescending<T>(t: seq<T>, x: T, key: T -> int)
    requires Descending(t, key)
    ensures Descending(Insert(t, x, key), key)
    decreases |t|
  {
    if t != [] && key(t[|t| - 1]) < key(x) {
      var p, last := t[..|t| - 1], t[|t| - 1];
      InsertDescending(p, x, key);
      InsertPermutes(p, x, key);
      var r := Insert(p, x, key);
      forall i | 0 <= i < |r| ensures key(r[i]) >= key(last) {
        assert r[i] in multiset(r);
        if r[i] != x {
          assert r[i] in multiset(p);
          var k :| 0 <= k < |p| && p[k] == r[i];
          assert t[k] == r[i];
        }
      }
    }
  }

  /** The result of sorting is a permutation of the input. */
  lemma {:induction false} SortPermutes<T>(s: seq<T>, key: T -> int)
    ensures multiset(Sort(s, key)) == multiset(s)
    ensures forall x :: x in Sort(s, key) <==> x in s
  {
    if s != [] {
      var p := s[..|s| - 1];
      assert s == p + [s[|s| - 1]];
      SortPermutes(p, key);
      InsertPermutes(Sort(p, key), s[|s| - 1], key);
    }
    assert forall x :: x in Sort(s, key) <==> x in multiset(Sort(s, key));
  }

  /** The result of sorting is in descending key order. */
  lemma {:induction false} SortDescending<T>(s: seq<T>, key: T -> int)
    ensures Descending(Sort(s, key), key)
  {
    if s != [] {
      SortDescending(s[..|s| - 1], key);
      InsertDescending(Sort(s[..|s| - 1], key), s[|s| - 1], key);
    }
  }

  /** The elements of `s` whose key is `k`, in their order in `s`. */
  function WithKey<T>(s: seq<T>, key: T -> int, k: int): seq<T> {
    if s == [] then []
    else WithKey(s[..|s| - 1], key, k) + if key(s[|s| - 1]) == k then [s[|s| - 1]] else []
  }

  lemma {:induction false} InsertWithKey<T>(t: seq<T>, x: T, key: T -> int, k: int)
    ensures WithKey(Insert(t, x, key), key, k) == WithKey(t, key, k) + if key(x) == k then [x] else []
    decreases |t|
  {
    if t == [] {
    } else if key(t[|t| - 1]) >= key(x) {
      assert (t + [x])[..|t|] == t;
    } else {
      var p, last := t[..|t| - 1], t[|t| - 1];
      var r := Insert(p, x, key) + [last];
      assert r[..|r| - 1] == Insert(p, x, key);
      assert t == p + [last];
      InsertWithKey(p, x, key, k);
    }
  }

  /** Stability: for every key, the elements with that key keep their relative order. */
  lemma {:induction false} SortStable<T>(s: seq<T>, key: T -> int, k: int)
    ensures WithKey(Sort(s, key), key, k) == WithKey(s, key, k)
  {
    if s != [] {
      SortStable(s[..|s| - 1], key, k);
      InsertWithKey(Sort(s[..|s| - 1], key), s[|s| - 1], key, k);
    }
  }

  lemma {:induction false} InsertSum<T>(t: seq<T>, x: T, key: T -> int, val: T -> int)
    ensures Sum(Insert(t, x, key), val) == Sum(t, val) + val(x)
    decreases |t|
  {
    if t == [] {
    } else if key(t[|t| - 1]) >= key(x) {
      SumAppend(t, [x], val);
    } else {
      var p, last := t[..|t| - 1], t[|t| - 1];
      assert t == p + [last];
      InsertSum(p, x, key, val);
      SumAppend(Insert(p, x, key), [last], val);
      SumAppend(p, [last], val);
    }
  }

  /** Sorting does not change the sum of any quantity over the elements. */
  lemma {:induction false} SortSum<T>(s: seq<T>, key: T -> int, val: T -> int)
    ensures Sum(Sort(s, key), val) == Sum(s, val)
  {
    if s != [] {
      var p := s[..|s| - 1];
      assert s == p + [s[|s| - 1]];
      SortSum(p, key, val);
      InsertSum(Sort(p, key), s[|s| - 1], key, val);
      SumAppend(p, [s[|s| - 1]], val);
    }
  }

  /** No two elements of `s` share a value of `f`. */
  predicate DistinctBy<T, K(==)>(s: seq<T>, f: T -> K) {
    forall i, j :: 0 <= i < j < |s| ==> f(s[i]) != f(s[j])
  }

  lemma {:induction false} InsertDistinct<T, K>(t: seq<T>, x: T, key: T -> int, f: T -> K)
    requires DistinctBy(t, f) && forall i :: 0 <= i < |t| ==> f(t[i]) != f(x)
    ensures DistinctBy(Insert(t, x, key), f)
    decreases |t|
  {
    if t != [] && key(t[|t| - 1]) < key(x) {
      var p, last := t[..|t| - 1], t[|t| - 1];
      InsertDistinct(p, x, key, f);
      InsertPermutes(p, x, key);
      var r := Insert(p, x, key);
      forall i | 0 <= i < |r| ensures f(r[i]) != f(last) {
        assert r[i] in multiset(r);
        if r[i] != x {
          assert r[i] in multiset(p);
          var k :| 0 <= k < |p| && p[k] == r[i];
          assert t[k] == r[i];
        }
      }
    }
  }

  /** Sorting keeps a property that tells the elements apart. */
  lemma {:induction false} SortDistinct<T, K>(s: seq<T>, key: T -> int, f: T -> K)
    requires DistinctBy(s, f)
    ensures DistinctBy(Sort(s, key), f)
  {
    if s != [] {
      var p := s[..|s| - 1];
      SortDistinct(p, key, f);
      SortPermutes(p, key);
      var q := Sort(p, key);
      forall i | 0 <= i < |q| ensures f(q[i]) != f(s[|s| - 1]) {
        assert q[i] in multiset(p);
        var k :| 0 <= k < |p| && p[k] == q[i];
        assert s[k] == q[i];
      }
      InsertDistinct(q, s[|s| - 1], key, f);
    }
  }

  /**
   * Where the insertion step stops: `x` goes right after the last element of
   * `t` whose key is at least its own, behind every smaller key.
   */
  lemma {:induction false} InsertAfterLarger<T>(t: seq<T>, j: int, x: T, key: T -> int)
    requires 0 <= j <= |t|
    requires j == 0 || key(t[j - 1]) >= key(x)
    requires forall k :: j <= k < |t| ==> key(t[k]) < key(x)
    ensures Insert(t, x, key) == t[..j] + [x] + t[j..]
    decreases |t|
  {
    if |t| > j {
      var p := t[..|t| - 1];
      InsertAfterLarger(p, j, x, key);
      assert p[..j] == t[..j];
      assert t[j..] == p[j..] + [t[|t| - 1]];
    } else {
      assert t[..j] == t;
    }
  }

  /** Moves `a[i]` left past the smaller keys before it: one step of insertion sort. */
  method InsertAt<T>(a: array<T>, i: int, key: T -> int)
    requires 0 <= i < a.Length
    modifies a
    ensures a[..i + 1] == Insert(old(a[..i]), old(a[i]), key)
    ensures a[i + 1..] == old(a[i + 1..])
  {
    ghost var sorted := a[..i];
    var x := a[i];
    var j := i;
    while j > 0 && key(a[j - 1]) < key(x)
      invariant 0 <= j <= i
      invariant forall k :: 0 <= k < j ==> a[k] == sorted[k]
      invariant forall k :: j < k <= i ==> a[k] == sorted[k - 1]
      invariant forall k :: i < k < a.Length ==> a[k] == old(a[k])
      invariant forall k :: j <= k < i ==> key(sorted[k]) < key(x)
    {
      a[j] := a[j - 1];
      j := j - 1;
    }
    InsertAfterLarger(sorted, j, x, key);
    a[j] := x;
    Reassembled(a[..i + 1], sorted, j, x);
  }

  /** The array prefix after the last move: the shifted run with `x` dropped into the gap. */
  lemma Reassembled<T>(b: seq<T>, sorted: seq<T>, j: int, x: T)
    requires 0 <= j <= |sorted| && |b| == |sorted| + 1 && b[j] == x
    requires forall k :: 0 <= k < j ==> b[k] == sorted[k]
    requires forall k :: j < k < |b| ==> b[k] == sorted[k - 1]
    ensures b == sorted[..j] + [x] + sorted[j..]
  {
  }

  /** Insertion sort on an array, in place; the result is `Sort` of the original contents. */
  method SortInPlace<T>(a: array<T>, key: T -> int)
    modifies a
    ensures a[..] == Sort(old(a[..]), key)
  {
    ghost var s := a[..];
    var i := 0;
    while i < a.Length
      invariant 0 <= i <= a.Length
      invariant a[..i] == Sort(s[..i], key)
      invariant a[i..] == s[i..]
    {
      assert a[i] == s[i];
      InsertAt(a, i, key);
      assert s[..i + 1][..i] == s[..i];
      assert a[..i + 1] == Sort(s[..i + 1], key);
      i := i + 1;
    }
    assert a[..] == a[..a.Length];
    assert s == s[..a.Length];
  }
}
