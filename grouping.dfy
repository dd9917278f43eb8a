/**
 * Per-key duration totals as `applyFilters` builds them: a `Map` from a key
 * (a client id or a project) to the summed duration, filled by one pass over
 * the entries, then read out with `Array.from(map.entries())` in insertion
 * order.
 */
module Grouping {
  import opened Lists
  import opened Records

  /** One `[key, duration]` pair of the map. */
  datatype Total = Total(key: string, minutes: int)

  function MinutesOf(t: Total): int { t.minutes }
  function DurationOf(e: TimeEntry): int { e.duration }

  function Keys(g: seq<Total>): (ls: seq<string>)
    ensures |ls| == |g| && forall i :: 0 <= i < |g| ==> ls[i] == g[i].key
  {
    seq(|g|, i requires 0 <= i < |g| => g[i].key)
  }

  /** The key of every entry, in order. */
  function KeysOf(s: seq<TimeEntry>, keyOf: TimeEntry -> string): (ls: seq<string>)
    ensures |ls| == |s| && forall i :: 0 <= i < |s| ==> ls[i] == keyOf(s[i])
  {
    seq(|s|, i requires 0 <= i < |s| => keyOf(s[i]))
  }

  /** `map.has(k) ? map.set(k, map.get(k) + d) : map.set(k, d)` on the pairs in insertion order. */
  function AddTo(g: seq<Total>, k: string, d: int): seq<Total> {
    if k in Keys(g) then
      var p := IndexOf(Keys(g), k);
      g[p := Total(k, g[p].minutes + d)]
    else g + [Total(k, d)]
  }

  /** The map after the `forEach` over `s`. */
  function Totals(s: seq<TimeEntry>, keyOf: TimeEntry -> string): seq<Total> {
    if s == [] then [] else AddTo(Totals(s[..|s| - 1], keyOf), keyOf(s[|s| - 1]), s[|s| - 1].duration)
  }

  /** The summed duration of the entries of `s` whose key is `k`: the reference for one total. */
  function MinutesFor(s: seq<TimeEntry>, keyOf: TimeEntry -> string, k: string): int {
    if s == [] then 0
    else MinutesFor(s[..|s| - 1], keyOf, k) + if keyOf(s[|s| - 1]) == k then s[|s| - 1].duration else 0
  }

  /** `map.get(k)`, with 0 for a missing key. */
  function TotalOf(g: seq<Total>, k: string): int {
    if k in Keys(g) then g[IndexOf(Keys(g), k)].minutes else 0
  }

  lemma AddToKeys(g: seq<Total>, k: string, d: int)
    ensures Keys(AddTo(g, k, d)) == if k in Keys(g) then Keys(g) else Keys(g) + [k]
  {
  }

  lemma AddToTotalOf(g: seq<Total>, k: string, d: int, k2: string)
    requires NoDup(Keys(g))
    ensures TotalOf(AddTo(g, k, d), k2) == TotalOf(g, k2) + if k2 == k then d else 0
  {
    AddToKeys(g, k, d);
    var g2 := AddTo(g, k, d);
    if k2 in Keys(g) {
      var q := IndexOf(Keys(g), k2);
      assert IndexOf(Keys(g2), k2) == q by {
        assert Keys(g2)[q] == k2;
        assert forall j :: 0 <= j < q ==> Keys(g2)[j] != k2;
        IndexOfUnique(Keys(g2), k2, q);
      }
    } else if k2 == k {
      assert Keys(g2)[|g|] == k2;
      IndexOfUnique(Keys(g2), k2, |g|);
    }
  }

  lemma IndexOfUnique(s: seq<string>, x: string, q: int)
    requires 0 <= q < |s| && s[q] == x && forall j :: 0 <= j < q ==> s[j] != x
    ensures IndexOf(s, x) == q
  {
  }

  lemma AddToSum(g: seq<Total>, k: string, d: int)
    ensures Sum(AddTo(g, k, d), MinutesOf) == Sum(g, MinutesOf) + d
  {
    if k in Keys(g) {
      var p := IndexOf(Keys(g), k);
      SumUpdate(g, p, Total(k, g[p].minutes + d), MinutesOf);
    } else {
      SumAppend(g, [Total(k, d)], MinutesOf);
    }
  }

  /** The keys come out once each, in the order they were first met. */
  lemma {:induction false} TotalsKeys(s: seq<TimeEntry>, keyOf: TimeEntry -> string)
    ensures Keys(Totals(s, keyOf)) == Dedup(KeysOf(s, keyOf))
  {
    if s != [] {
      var p, k := s[..|s| - 1], keyOf(s[|s| - 1]);
      TotalsKeys(p, keyOf);
      assert KeysOf(s, keyOf) == KeysOf(p, keyOf) + [k];
      AddToKeysDedup(Totals(p, keyOf), KeysOf(p, keyOf), k, s[|s| - 1].duration);
    }
  }

  lemma AddToKeysDedup(g: seq<Total>, ks: seq<string>, k: string, d: int)
    requires Keys(g) == Dedup(ks)
    ensures Keys(AddTo(g, k, d)) == Dedup(ks + [k])
  {
    AddToKeys(g, k, d);
    DedupAppend(ks, k);
  }

  /** Each key's total is the summed duration of the entries with that key. */
  lemma {:induction false} TotalsMinutes(s: seq<TimeEntry>, keyOf: TimeEntry -> string, k: string)
    ensures TotalOf(Totals(s, keyOf), k) == MinutesFor(s, keyOf, k)
  {
    if s != [] {
      var p := s[..|s| - 1];
      TotalsMinutes(p, keyOf, k);
      TotalsKeys(p, keyOf);
      AddToTotalOf(Totals(p, keyOf), keyOf(s[|s| - 1]), s[|s| - 1].duration, k);
    }
  }

  /** The totals add up to the summed duration of all entries. */
  lemma {:induction false} TotalsSum(s: seq<TimeEntry>, keyOf: TimeEntry -> string)
    ensures Sum(Totals(s, keyOf), MinutesOf) == Sum(s, DurationOf)
  {
    if s != [] {
      var p := s[..|s| - 1];
      assert s == p + [s[|s| - 1]];
      TotalsSum(p, keyOf);
      AddToSum(Totals(p, keyOf), keyOf(s[|s| - 1]), s[|s| - 1].duration);
      SumAppend(p, [s[|s| - 1]], DurationOf);
    }
  }

  /** What one pair of the result holds, read off the element itself. */
  lemma TotalsAt(s: seq<TimeEntry>, keyOf: TimeEntry -> string, i: int)
    requires 0 <= i < |Totals(s, keyOf)|
    ensures Totals(s, keyOf)[i].minutes == MinutesFor(s, keyOf, Totals(s, keyOf)[i].key)
    ensures exists j :: 0 <= j < |s| && keyOf(s[j]) == Totals(s, keyOf)[i].key
  {
    var g := Totals(s, keyOf);
    TotalsKeys(s, keyOf);
    TotalsMinutes(s, keyOf, g[i].key);
    assert Keys(g)[i] == g[i].key;
    IndexOfUnique(Keys(g), g[i].key, i);
    assert g[i].key in KeysOf(s, keyOf);
  }

  /** `keys` and `sums` hold the map whose pairs, in insertion order, are `g`. */
  ghost predicate Represents(keys: seq<string>, sums: map<string, int>, g: seq<Total>) {
    Keys(g) == keys && NoDup(keys) &&
    (forall k :: k in sums <==> k in keys) &&
    forall i :: 0 <= i < |g| ==> g[i].key in sums && sums[g[i].key] == g[i].minutes
  }

  lemma RepresentsAdd(keys: seq<string>, sums: map<string, int>, g: seq<Total>, k: string, d: int)
    requires Represents(keys, sums, g)
    ensures k in sums ==> Represents(keys, sums[k := sums[k] + d], AddTo(g, k, d))
    ensures k !in sums ==> Represents(keys + [k], sums[k := d], AddTo(g, k, d))
  {
    if k in sums {
      RepresentsAddKnown(keys, sums, g, k, d);
    } else {
      RepresentsAddFresh(keys, sums, g, k, d);
    }
  }

  lemma RepresentsAddKnown(keys: seq<string>, sums: map<string, int>, g: seq<Total>, k: string, d: int)
    requires Represents(keys, sums, g) && k in keys
    ensures Represents(keys, sums[k := sums[k] + d], AddTo(g, k, d))
  {
    AddToKeys(g, k, d);
    var p := IndexOf(Keys(g), k);
    var g2 := g[p := Total(k, g[p].minutes + d)];
    assert AddTo(g, k, d) == g2;
    var sums2 := sums[k := sums[k] + d];
    forall i | 0 <= i < |g2| ensures g2[i].key in sums2 && sums2[g2[i].key] == g2[i].minutes {
      if i != p {
        assert g2[i] == g[i] && Keys(g)[i] != k;
      }
    }
  }

  lemma RepresentsAddFresh(keys: seq<string>, sums: map<string, int>, g: seq<Total>, k: string, d: int)
    requires Represents(keys, sums, g) && k !in keys
    ensures Represents(keys + [k], sums[k := d], AddTo(g, k, d))
  {
    AddToKeys(g, k, d);
    var g2 := g + [Total(k, d)];
    assert AddTo(g, k, d) == g2;
    var sums2 := sums[k := d];
    forall i | 0 <= i < |g2| ensures g2[i].key in sums2 && sums2[g2[i].key] == g2[i].minutes {
      if i < |g| {
        assert g2[i] == g[i] && Keys(g)[i] != k;
      }
    }
  }

  /**
   * The `forEach` that fills the map, then `Array.from(map.entries())`.
   * The map is kept as its keys in insertion order plus a finite map from key to sum.
   */
  method GroupDurations(s: seq<TimeEntry>, keyOf: TimeEntry -> string) returns (totals: seq<Total>)
    ensures totals == Totals(s, keyOf)
  {
    var keys: seq<string> := [];
    var sums: map<string, int> := map[];
    var i := 0;
    while i < |s|
      invariant 0 <= i <= |s|
      invariant Represents(keys, sums, Totals(s[..i], keyOf))
    {
      var k, d := keyOf(s[i]), s[i].duration;
      assert s[..i + 1][..i] == s[..i];
      RepresentsAdd(keys, sums, Totals(s[..i], keyOf), k, d);
      if k in sums {
        sums := sums[k := sums[k] + d];
      } else {
        keys := keys + [k];
        sums := sums[k := d];
      }
      i := i + 1;
    }
    assert s[..i] == s;
    totals := [];
    var j := 0;
    while j < |keys|
      invariant 0 <= j <= |keys|
      invariant totals == Totals(s, keyOf)[..j]
    {
      totals := totals + [Total(keys[j], sums[keys[j]])];
      j := j + 1;
    }
  }
}
