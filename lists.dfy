/** Sequence helpers shared by the model: distinctness, first-occurrence de-duplication and sums. */
module Lists {

  predicate NoDup<T(==)>(s: seq<T>) {
    forall i, j :: 0 <= i < j < |s| ==> s[i] != s[j]
  }

  /**
   * The elements of `s` in order of first occurrence, each once: what a
   * JavaScript `Set` (or the keys of a `Map`) holds after adding `s` in order.
   */
  function Dedup<T(==,!new)>(s: seq<T>): (r: seq<T>)
    ensures NoDup(r)
    ensures forall x :: x in r <==> x in s
  {
    if s == [] then []
    else
      var prev := Dedup(s[..|s| - 1]);
      if s[|s| - 1] in prev then prev else prev + [s[|s| - 1]]
  }

  lemma DedupAppend<T(!new)>(s: seq<T>, x: T)
    ensures Dedup(s + [x]) == if x in Dedup(s) then Dedup(s) else Dedup(s) + [x]
  {
    assert (s + [x])[..|s + [x]| - 1] == s;
  }

  /** Adding elements that are already there changes nothing; de-duplicating is idempotent. */
  lemma {:induction false} DedupOfNoDup<T(!new)>(s: seq<T>)
    requires NoDup(s)
    ensures Dedup(s) == s
  {
    if s != [] {
      var p := s[..|s| - 1];
      assert NoDup(p);
      DedupOfNoDup(p);
      assert s == p + [s[|s| - 1]];
    }
  }

  /** The sum of `val` over `s`. */
  function Sum<T>(s: seq<T>, val: T -> int): int {
    if s == [] then 0 else val(s[0]) + Sum(s[1..], val)
  }

  lemma {:induction false} SumAppend<T>(a: seq<T>, b: seq<T>, val: T -> int)
    ensures Sum(a + b, val) == Sum(a, val) + Sum(b, val)
  {
    if a == [] {
      assert a + b == b;
    } else {
      assert (a + b)[1..] == a[1..] + b;
      SumAppend(a[1..], b, val);
    }
  }

  /** The concatenation of a sequence of sequences. */
  function Flatten<T(!new)>(ss: seq<seq<T>>): (r: seq<T>)
    ensures forall x :: x in r <==> exists i :: 0 <= i < |ss| && x in ss[i]
  {
    if ss == [] then [] else
      var rest := Flatten(ss[1..]);
      assert forall x :: x in rest <==> exists i :: 1 <= i < |ss| && x in ss[i] by {
        forall x | x in rest ensures exists i :: 1 <= i < |ss| && x in ss[i] {
          var i :| 0 <= i < |ss[1..]| && x in ss[1..][i];
          assert x in ss[i + 1];
        }
        forall x | (exists i :: 1 <= i < |ss| && x in ss[i]) ensures x in rest {
          var i :| 1 <= i < |ss| && x in ss[i];
          assert x in ss[1..][i - 1];
        }
      }
      ss[0] + rest
  }

  /** The first index of `x` in `s`. */
  function IndexOf<T(==)>(s: seq<T>, x: T): (p: nat)
    requires x in s
    ensures p < |s| && s[p] == x
    ensures forall j :: 0 <= j < p ==> s[j] != x
  {
    if s[0] == x then 0 else 1 + IndexOf(s[1..], x)
  }

  /** Replacing one element changes the sum by the difference. */
  lemma {:induction false} SumUpdate<T>(s: seq<T>, p: int, x: T, val: T -> int)
    requires 0 <= p < |s|
    ensures Sum(s[p := x], val) == Sum(s, val) - val(s[p]) + val(x)
  {
    if p > 0 {
      assert s[p := x][1..] == s[1..][p - 1 := x];
      SumUpdate(s[1..], p - 1, x, val);
    } else {
      assert s[p := x][1..] == s[1..];
    }
  }

  lemma FlattenAppend<T(!new)>(ss: seq<seq<T>>, t: seq<T>)
    ensures Flatten(ss + [t]) == Flatten(ss) + t
    decreases |ss|
  {
    if ss == [] {
      assert [] + [t] == [t];
    } else {
      assert (ss + [t])[1..] == ss[1..] + [t];
      FlattenAppend(ss[1..], t);
    }
  }
  /** `s.filter(p)`: the elements of `s` that satisfy `p`, in their order. */
  function Keep<T(==,!new)>(s: seq<T>, p: T -> bool): (r: seq<T>)
    ensures |r| <= |s|
    ensures forall x :: x in r <==> x in s && p(x)
  {
    if s == [] then [] else (if p(s[0]) then [s[0]] else []) + Keep(s[1..], p)
  }

  /** Filtering a concatenation filters each part: the kept elements stay in their order. */
  lemma {:induction false} KeepAppend<T(!new)>(a: seq<T>, b: seq<T>, p: T -> bool)
    ensures Keep(a + b, p) == Keep(a, p) + Keep(b, p)
  {
    if a == [] {
      assert a + b == b;
    } else {
      assert (a + b)[0] == a[0];
      assert (a + b)[1..] == a[1..] + b;
      KeepAppend(a[1..], b, p);
    }
  }

  /** A filter that every element passes changes nothing. */
  lemma {:induction false} KeepAll<T(!new)>(s: seq<T>, p: T -> bool)
    requires forall i :: 0 <= i < |s| ==> p(s[i])
    ensures Keep(s, p) == s
  {
    if s != [] {
      KeepAll(s[1..], p);
      assert s == [s[0]] + s[1..];
    }
  }

  /** Two complementary filters split `s`: every element lands in exactly one of them. */
  lemma {:induction false} KeepPartition<T(!new)>(s: seq<T>, p: T -> bool, q: T -> bool)
    requires forall x :: q(x) <==> !p(x)
    ensures multiset(Keep(s, p)) + multiset(Keep(s, q)) == multiset(s)
    ensures |Keep(s, p)| + |Keep(s, q)| == |s|
  {
    if s != [] {
      KeepPartition(s[1..], p, q);
      PartitionStep(s[0], Keep(s, p), Keep(s, q), Keep(s[1..], p), Keep(s[1..], q), s[1..], p(s[0]));
      assert s == [s[0]] + s[1..];
    }
  }

  lemma PartitionStep<T>(x: T, kp: seq<T>, kq: seq<T>, restP: seq<T>, restQ: seq<T>, rest: seq<T>, px: bool)
    requires kp == (if px then [x] else []) + restP && kq == (if px then [] else [x]) + restQ
    requires multiset(restP) + multiset(restQ) == multiset(rest) && |restP| + |restQ| == |rest|
    ensures multiset(kp) + multiset(kq) == multiset([x] + rest) && |kp| + |kq| == 1 + |rest|
  {
  }

  /** A filter and its complement, together: they split `s`, and each distributes over concatenation. */
  lemma KeepSplit<T(!new)>(s: seq<T>, p: T -> bool, q: T -> bool)
    requires forall x :: q(x) <==> !p(x)
    ensures multiset(Keep(s, p)) + multiset(Keep(s, q)) == multiset(s)
    ensures forall a, b :: Keep(a + b, p) == Keep(a, p) + Keep(b, p)
  {
    KeepPartition(s, p, q);
    forall a, b ensures Keep(a + b, p) == Keep(a, p) + Keep(b, p) {
      KeepAppend(a, b, p);
    }
  }

  /** Filtering keeps a sequence free of duplicates. */
  lemma {:induction false} KeepNoDup<T(!new)>(s: seq<T>, p: T -> bool)
    requires NoDup(s)
    ensures NoDup(Keep(s, p))
  {
    if s != [] {
      assert NoDup(s[1..]);
      KeepNoDup(s[1..], p);
      assert s[0] !in s[1..] by {
        forall j | 0 <= j < |s[1..]| ensures s[1..][j] != s[0] {
          assert s[1..][j] == s[j + 1];
        }
      }
      var r := Keep(s, p);
      var rest := Keep(s[1..], p);
      if p(s[0]) {
        assert r == [s[0]] + rest;
        forall i, j | 0 <= i < j < |r| ensures r[i] != r[j] {
          if i == 0 {
            assert r[j] == rest[j - 1];
            assert rest[j - 1] in rest;
          } else {
            assert r[i] == rest[i - 1] && r[j] == rest[j - 1];
          }
        }
      } else {
        assert r == rest;
      }
    }
  }

  /** `s.map(x => m(x) ? u : x)`: every element that `m` picks is replaced by `u`. */
  function ReplaceWhere<T>(s: seq<T>, m: T -> bool, u: T): (r: seq<T>)
    ensures |r| == |s|
    ensures forall i :: 0 <= i < |s| ==> r[i] == if m(s[i]) then u else s[i]
  {
    if s == [] then [] else [if m(s[0]) then u else s[0]] + ReplaceWhere(s[1..], m, u)
  }
}
