/**
 * Python dictionaries as ordered lists of (key, value) entries. A Python dict
 * iterates in insertion order and never holds a key twice; `DistinctKeys` is
 * that second fact, and the entry order is the iteration order.
 */
module Dicts {
  import opened Wrappers
  import opened Arrays

  type Key = string

  type Dict<V> = seq<(Key, V)>

  predicate DistinctKeys<V>(d: Dict<V>)
  {
    forall i, j :: 0 <= i < j < |d| ==> d[i].0 != d[j].0
  }

  function Keys<V>(d: Dict<V>): set<Key>
  {
    set i | 0 <= i < |d| :: d[i].0
  }

  /** The values in iteration order (`d.values()`). */
  function Values<V>(d: Dict<V>): (r: seq<V>)
    ensures |r| == |d|
  {
    seq(|d|, i requires 0 <= i < |d| => d[i].1)
  }

  /** `d[k]`, with the KeyError of an absent key as `None`. */
  function Get<V>(d: Dict<V>, k: Key): (r: Option<V>)
    ensures r.None? <==> k !in Keys(d)
    ensures DistinctKeys(d) ==> forall i :: 0 <= i < |d| && d[i].0 == k ==> r == Some(d[i].1)
  {
    if |d| == 0 then None
    else if d[0].0 == k then Some(d[0].1)
    else
      assert Keys(d) == {d[0].0} + Keys(d[1..]) by {
        forall x | x in Keys(d) ensures x in {d[0].0} + Keys(d[1..]) {
          var i :| 0 <= i < |d| && d[i].0 == x;
          if i > 0 { assert d[1..][i - 1].0 == x; }
        }
      }
      Get(d[1..], k)
  }

  /** Position m holds the first key of `ks` that `d` lacks. */
  predicate FirstAbsent(d: Dict<nat>, ks: seq<Key>, m: nat)
  {
    && m < |ks|
    && ks[m] !in Keys(d)
    && forall m' :: 0 <= m' < m ==> ks[m'] in Keys(d)
  }

  /** Every key listed in `ks` is present in `d`. */
  predicate AllPresent(d: Dict<nat>, ks: seq<Key>)
  {
    forall m :: 0 <= m < |ks| ==> ks[m] in Keys(d)
  }

  /** The sum of all values, as `for k in d.keys(): total += d[k]` computes it. */
  function Total(d: Dict<nat>): nat
  {
    Sum(Values(d))
  }

  /** The total is the first value plus the total of the rest. */
  lemma TotalFirst(d: Dict<nat>)
    requires |d| > 0
    ensures Total(d) == d[0].1 + Total(d[1..])
  {
    var v := d[0].1;
    assert Values(d) == [v] + Values(d[1..]);
    SumConcat([v], Values(d[1..]));
    assert Sum([v]) == v by { assert [v][..0] == []; }
  }

  /** The values stored under the keys `ks`, in the order of `ks`. */
  function Lookups(d: Dict<nat>, ks: seq<Key>): (r: seq<nat>)
    requires forall m :: 0 <= m < |ks| ==> ks[m] in Keys(d)
    ensures |r| == |ks|
  {
    seq(|ks|, m requires 0 <= m < |ks| => Get(d, ks[m]).value)
  }

  lemma LookupsConcat(d: Dict<nat>, a: seq<Key>, b: seq<Key>)
    requires forall m :: 0 <= m < |a| ==> a[m] in Keys(d)
    requires forall m :: 0 <= m < |b| ==> b[m] in Keys(d)
    ensures Lookups(d, a + b) == Lookups(d, a) + Lookups(d, b)
  {
  }

  lemma KeysTail<V>(d: Dict<V>)
    requires |d| > 0 && DistinctKeys(d)
    ensures DistinctKeys(d[1..])
    ensures Keys(d[1..]) == Keys(d) - {d[0].0}
  {
    var tail := d[1..];
    forall x | x in Keys(d) - {d[0].0} ensures x in Keys(tail) {
      var i :| 0 <= i < |d| && d[i].0 == x;
      assert tail[i - 1].0 == x;
    }
    forall x | x in Keys(tail) ensures x in Keys(d) - {d[0].0} {
      var i :| 0 <= i < |tail| && tail[i].0 == x;
      assert d[i + 1].0 == x;
    }
  }

  lemma ElemsRemoveAt<T>(ks: seq<T>, m: nat)
    requires m < |ks| && Distinct(ks)
    ensures Distinct(ks[..m] + ks[m + 1..])
    ensures Elems(ks[..m] + ks[m + 1..]) == Elems(ks) - {ks[m]}
  {
    var rest := ks[..m] + ks[m + 1..];
    forall x | x in Elems(ks) - {ks[m]} ensures x in Elems(rest) {
      var i :| 0 <= i < |ks| && ks[i] == x;
      if i < m { assert rest[i] == x; } else { assert rest[i - 1] == x; }
    }
  }

  /** Lookups of keys other than the first entry's do not see that entry. */
  lemma LookupsSkipFirst(d: Dict<nat>, ks: seq<Key>)
    requires |d| > 0 && DistinctKeys(d)
    requires forall m :: 0 <= m < |ks| ==> ks[m] in Keys(d) && ks[m] != d[0].0
    ensures forall m :: 0 <= m < |ks| ==> ks[m] in Keys(d[1..])
    ensures Lookups(d, ks) == Lookups(d[1..], ks)
  {
    KeysTail(d);
    forall j | 0 <= j < |ks| ensures Get(d, ks[j]) == Get(d[1..], ks[j]) {
      var i :| 0 <= i < |d| && d[i].0 == ks[j];
      assert d[1..][i - 1].0 == ks[j];
    }
  }

  /** Summing lookups around position m: the value at m plus the sum without it. */
  lemma SumLookupsRemoveAt(d: Dict<nat>, ks: seq<Key>, m: nat, rest: seq<Key>)
    requires m < |ks| && rest == ks[..m] + ks[m + 1..]
    requires forall j :: 0 <= j < |ks| ==> ks[j] in Keys(d)
    ensures forall j :: 0 <= j < |rest| ==> rest[j] in Keys(d)
    ensures Sum(Lookups(d, ks)) == Sum(Lookups(d, rest)) + Get(d, ks[m]).value
  {
    assert ks == ks[..m] + [ks[m]] + ks[m + 1..];
    LookupsConcat(d, ks[..m] + [ks[m]], ks[m + 1..]);
    LookupsConcat(d, ks[..m], [ks[m]]);
    LookupsConcat(d, ks[..m], ks[m + 1..]);
    var pre, v, post := Lookups(d, ks[..m]), Get(d, ks[m]).value, Lookups(d, ks[m + 1..]);
    assert Lookups(d, [ks[m]]) == [v];
    SumConcat(pre + [v], post);
    SumConcat(pre, [v]);
    SumConcat(pre, post);
  }

  /**
   * Summing a dict's values key by key along any ordering of its keys gives its
   * total: the order in which the keys are visited does not matter.
   */
  lemma {:induction false} SumLookups(d: Dict<nat>, ks: seq<Key>)
    requires DistinctKeys(d)
    requires Distinct(ks)
    requires Elems(ks) == Keys(d)
    ensures forall m :: 0 <= m < |ks| ==> ks[m] in Keys(d)
    ensures Sum(Lookups(d, ks)) == Total(d)
    decreases |d|
  {
    assert forall m :: 0 <= m < |ks| ==> ks[m] in Elems(ks);
    if |d| > 0 {
      var (k, v) := d[0];
      assert k in Keys(d);
      var m :| 0 <= m < |ks| && ks[m] == k;
      var rest := ks[..m] + ks[m + 1..];
      KeysTail(d);
      ElemsRemoveAt(ks, m);
      SumLookupsRemoveAt(d, ks, m, rest);
      assert forall j :: 0 <= j < |rest| ==> rest[j] in Elems(rest);
      LookupsSkipFirst(d, rest);
      SumLookups(d[1..], rest);
      TotalFirst(d);
    }
  }

  /** The keys of `d` that `ks` does not list, in iteration order: the `otherkeys` of `gen_groups`. */
  function OtherKeys(d: Dict<nat>, ks: seq<Key>): (r: seq<Key>)
    ensures forall k :: k in r <==> k in Keys(d) && k !in ks
    ensures DistinctKeys(d) ==> Distinct(r)
  {
    if |d| == 0 then []
    else
      var rest := OtherKeys(d[1..], ks);
      assert Keys(d) == {d[0].0} + Keys(d[1..]) by {
        forall x | x in Keys(d) ensures x in {d[0].0} + Keys(d[1..]) {
          var i :| 0 <= i < |d| && d[i].0 == x;
          if i > 0 { assert d[1..][i - 1].0 == x; }
        }
      }
      assert DistinctKeys(d) ==> DistinctKeys(d[1..]) && d[0].0 !in Keys(d[1..]) by {
        if DistinctKeys(d) { KeysTail(d); }
      }
      if d[0].0 in ks then rest else [d[0].0] + rest
  }

  /**
   * The dict total splits into the values under the listed keys `ks` and the
   * values under the keys `ks` does not list.
   */
  lemma TotalSplit(d: Dict<nat>, ks: seq<Key>)
    requires DistinctKeys(d) && Distinct(ks) && AllPresent(d, ks)
    ensures forall m :: 0 <= m < |OtherKeys(d, ks)| ==> OtherKeys(d, ks)[m] in Keys(d)
    ensures Total(d) == Sum(Lookups(d, ks)) + Sum(Lookups(d, OtherKeys(d, ks)))
  {
    var others := OtherKeys(d, ks);
    var all := ks + others;
    assert Distinct(all) by {
      forall i, j | 0 <= i < j < |all| ensures all[i] != all[j] {
        if j >= |ks| && i < |ks| {
          assert all[j] in others;
          assert all[i] in ks;
        } else if i >= |ks| {
          assert all[i] == others[i - |ks|] && all[j] == others[j - |ks|];
        }
      }
    }
    assert Elems(all) == Keys(d) by {
      forall x | x in Keys(d) ensures x in Elems(all) {
        if x !in ks { assert x in others; }
      }
      forall x | x in Elems(all) ensures x in Keys(d) {
        if x !in ks { assert x in others; }
      }
    }
    SumLookups(d, all);
    LookupsConcat(d, ks, others);
    SumConcat(Lookups(d, ks), Lookups(d, others));
  }
}
