/**
 * `group_rsvps`: folds fine-grained headcounts into coarse categories. Each
 * coarse category lists the fine keys it subsumes; its count is the sum of
 * their counts. A listed fine key absent from the input raises KeyError; fine
 * keys that no category lists do not reach the result.
 */
module Aggregate {
  import opened Wrappers
  import opened Arrays
  import opened Dicts

  datatype AggregateError = MissingKey(key: Key)

  /**
   * The inner loop of `group_rsvps`: starting from `count`, add the count of
   * every listed subtype in turn, stopping at the first missing one.
   */
  function SumListed(fine: Dict<nat>, subtypes: seq<Key>, count: nat): (r: Result<nat, AggregateError>)
    ensures r.Ok? <==> AllPresent(fine, subtypes)
    ensures r.Ok? ==> r.value == count + Sum(Lookups(fine, subtypes))
    ensures r.Err? ==> exists m: nat :: FirstAbsent(fine, subtypes, m) && r.error == MissingKey(subtypes[m])
    decreases |subtypes|
  {
    if |subtypes| == 0 then Ok(count)
    else
      match Get(fine, subtypes[0])
      case None =>
        assert FirstAbsent(fine, subtypes, 0);
        Err(MissingKey(subtypes[0]))
      case Some(v) =>
        var r := SumListed(fine, subtypes[1..], count + v);
        assert AllPresent(fine, subtypes) <==> AllPresent(fine, subtypes[1..]) by {
          if AllPresent(fine, subtypes[1..]) {
            forall m | 0 <= m < |subtypes| ensures subtypes[m] in Keys(fine) {
              if m > 0 { assert subtypes[1..][m - 1] == subtypes[m]; }
            }
          }
        }
        if r.Ok? then
          assert subtypes == [subtypes[0]] + subtypes[1..];
          LookupsConcat(fine, [subtypes[0]], subtypes[1..]);
          assert Lookups(fine, [subtypes[0]]) == [v];
          SumConcat([v], Lookups(fine, subtypes[1..]));
          assert Sum([v]) == v by { assert [v][..0] == []; }
          r
        else
          var m: nat :| FirstAbsent(fine, subtypes[1..], m) && r.error == MissingKey(subtypes[1..][m]);
          assert FirstAbsent(fine, subtypes, m + 1);
          r
  }

  /** Position (i, m) holds the first missing key, scanning categories in order and each list in order. */
  predicate FirstAbsentIn(fine: Dict<nat>, categories: Dict<seq<Key>>, i: nat, m: nat)
  {
    && i < |categories|
    && FirstAbsent(fine, categories[i].1, m)
    && forall i' :: 0 <= i' < i ==> AllPresent(fine, categories[i'].1)
  }

  /** Every key listed under any category is present in `fine`. */
  predicate AllListedPresent(fine: Dict<nat>, categories: Dict<seq<Key>>)
  {
    forall i :: 0 <= i < |categories| ==> AllPresent(fine, categories[i].1)
  }

  /** `group_rsvps(granular_rsvps, categories)`. */
  function GroupRsvps(fine: Dict<nat>, categories: Dict<seq<Key>>): (r: Result<Dict<nat>, AggregateError>)
    ensures r.Ok? <==> AllListedPresent(fine, categories)
    ensures r.Ok? ==> |r.value| == |categories|
    ensures r.Ok? ==> forall i :: 0 <= i < |categories| ==>
      AllPresent(fine, categories[i].1) &&
      r.value[i] == (categories[i].0, Sum(Lookups(fine, categories[i].1)))
    ensures r.Err? ==> exists i: nat, m: nat :: FirstAbsentIn(fine, categories, i, m) && r.error == MissingKey(categories[i].1[m])
    decreases |categories|
  {
    if |categories| == 0 then Ok([])
    else
      var (cat, subtypes) := categories[0];
      var tail := categories[1..];
      assert AllListedPresent(fine, categories) <==> AllPresent(fine, subtypes) && AllListedPresent(fine, tail) by {
        if AllPresent(fine, subtypes) && AllListedPresent(fine, tail) {
          forall i | 0 <= i < |categories| ensures AllPresent(fine, categories[i].1) {
            if i > 0 { assert tail[i - 1] == categories[i]; }
          }
        }
        if AllListedPresent(fine, categories) {
          forall i | 0 <= i < |tail| ensures AllPresent(fine, tail[i].1) {
            assert tail[i] == categories[i + 1];
          }
        }
      }
      match SumListed(fine, subtypes, 0)
      case Err(e) =>
        var m: nat :| FirstAbsent(fine, subtypes, m) && e == MissingKey(subtypes[m]);
        assert FirstAbsentIn(fine, categories, 0, m);
        Err(e)
      case Ok(count) =>
        match GroupRsvps(fine, tail)
        case Err(e) =>
          var i: nat, m: nat :| FirstAbsentIn(fine, tail, i, m) && e == MissingKey(tail[i].1[m]);
          assert tail[i] == categories[i + 1];
          assert FirstAbsentIn(fine, categories, i + 1, m) by {
            forall i' | 0 <= i' < i + 1 ensures AllPresent(fine, categories[i'].1) {
              if i' > 0 { assert tail[i' - 1] == categories[i']; }
            }
          }
          Err(e)
        case Ok(rest) =>
          var r := [(cat, count)] + rest;
          assert forall i :: 0 < i < |categories| ==> r[i] == rest[i - 1] && categories[i] == tail[i - 1];
          Ok(r)
  }

  /** The result of `group_rsvps` has exactly the keys of `categories`, in the same order. */
  lemma GroupKeys(fine: Dict<nat>, categories: Dict<seq<Key>>)
    requires GroupRsvps(fine, categories).Ok?
    ensures Keys(GroupRsvps(fine, categories).value) == Keys(categories)
    ensures DistinctKeys(categories) ==> DistinctKeys(GroupRsvps(fine, categories).value)
  {
    var r := GroupRsvps(fine, categories).value;
    assert forall i :: 0 <= i < |r| ==> r[i].0 == categories[i].0;
  }

  /** Every key listed under some category. */
  predicate Listed(categories: Dict<seq<Key>>, k: Key)
  {
    exists i, m :: 0 <= i < |categories| && 0 <= m < |categories[i].1| && categories[i].1[m] == k
  }

  /** The inner loop reads `fine` only at the listed subtypes. */
  lemma SumListedReadsListed(fine: Dict<nat>, fine': Dict<nat>, subtypes: seq<Key>, count: nat)
    requires forall m :: 0 <= m < |subtypes| ==> Get(fine, subtypes[m]) == Get(fine', subtypes[m])
    ensures SumListed(fine, subtypes, count) == SumListed(fine', subtypes, count)
  {
    var r, r' := SumListed(fine, subtypes, count), SumListed(fine', subtypes, count);
    assert forall m :: 0 <= m < |subtypes| ==> (subtypes[m] in Keys(fine) <==> subtypes[m] in Keys(fine'));
    if r.Ok? {
      assert Lookups(fine, subtypes) == Lookups(fine', subtypes);
    } else {
      var m: nat :| FirstAbsent(fine, subtypes, m) && r.error == MissingKey(subtypes[m]);
      var m': nat :| FirstAbsent(fine', subtypes, m') && r'.error == MissingKey(subtypes[m']);
      assert !(m < m') && !(m' < m);
    }
  }

  /**
   * Only listed fine keys influence the result: two inputs that agree on every
   * listed key (present or absent alike) are grouped identically, so unlisted
   * fine keys are dropped.
   */
  lemma {:induction false} GroupIgnoresUnlisted(fine: Dict<nat>, fine': Dict<nat>, categories: Dict<seq<Key>>)
    requires forall k :: Listed(categories, k) ==> Get(fine, k) == Get(fine', k)
    ensures GroupRsvps(fine, categories) == GroupRsvps(fine', categories)
    decreases |categories|
  {
    if |categories| > 0 {
      var subtypes := categories[0].1;
      forall m | 0 <= m < |subtypes| ensures Get(fine, subtypes[m]) == Get(fine', subtypes[m]) {
        assert Listed(categories, subtypes[m]);
      }
      SumListedReadsListed(fine, fine', subtypes, 0);
      var tail := categories[1..];
      forall k | Listed(tail, k) ensures Get(fine, k) == Get(fine', k) {
        var i, m :| 0 <= i < |tail| && 0 <= m < |tail[i].1| && tail[i].1[m] == k;
        assert categories[i + 1] == tail[i];
        assert Listed(categories, k);
      }
      GroupIgnoresUnlisted(fine, fine', tail);
    }
  }

  /** All listed fine keys, category after category. */
  function Flatten(categories: Dict<seq<Key>>): seq<Key>
  {
    if |categories| == 0 then [] else categories[0].1 + Flatten(categories[1..])
  }

  lemma {:induction false} FlattenMembers(categories: Dict<seq<Key>>)
    ensures forall k :: k in Flatten(categories) <==> Listed(categories, k)
    decreases |categories|
  {
    if |categories| > 0 {
      var tail := categories[1..];
      FlattenMembers(tail);
      forall k | Listed(categories, k) ensures k in Flatten(categories) {
        var i, m :| 0 <= i < |categories| && 0 <= m < |categories[i].1| && categories[i].1[m] == k;
        if i > 0 {
          assert tail[i - 1] == categories[i];
          assert Listed(tail, k);
        }
      }
      forall k | k in Flatten(categories) ensures Listed(categories, k) {
        if k !in categories[0].1 {
          assert k in Flatten(tail);
          var i, m :| 0 <= i < |tail| && 0 <= m < |tail[i].1| && tail[i].1[m] == k;
          assert categories[i + 1] == tail[i];
        } else {
          var m :| 0 <= m < |categories[0].1| && categories[0].1[m] == k;
        }
      }
    }
  }

  /** Summing grouped counts equals summing the fine counts of all listed keys. */
  lemma {:induction false} GroupedSum(fine: Dict<nat>, categories: Dict<seq<Key>>, grouped: Dict<nat>)
    requires AllListedPresent(fine, categories)
    requires |grouped| == |categories|
    requires forall i :: 0 <= i < |categories| ==> grouped[i].1 == Sum(Lookups(fine, categories[i].1))
    ensures AllPresent(fine, Flatten(categories))
    ensures Total(grouped) == Sum(Lookups(fine, Flatten(categories)))
    decreases |categories|
  {
    if |categories| > 0 {
      var tail, gtail := categories[1..], grouped[1..];
      assert AllListedPresent(fine, tail) by {
        forall i | 0 <= i < |tail| ensures AllPresent(fine, tail[i].1) {
          assert tail[i] == categories[i + 1];
        }
      }
      assert forall i :: 0 <= i < |tail| ==> gtail[i] == grouped[i + 1] && tail[i] == categories[i + 1];
      GroupedSum(fine, tail, gtail);
      var head := categories[0].1;
      assert AllPresent(fine, head);
      TotalFirst(grouped);
      LookupsConcat(fine, head, Flatten(tail));
      SumConcat(Lookups(fine, head), Lookups(fine, Flatten(tail)));
    }
  }

  /**
   * Headcount is conserved: when every fine key is listed under exactly one
   * category, grouping succeeds and the grouped total equals the fine total.
   */
  lemma GroupConserves(fine: Dict<nat>, categories: Dict<seq<Key>>)
    requires DistinctKeys(fine)
    requires Distinct(Flatten(categories))
    requires Elems(Flatten(categories)) == Keys(fine)
    ensures GroupRsvps(fine, categories).Ok?
    ensures Total(GroupRsvps(fine, categories).value) == Total(fine)
  {
    FlattenMembers(categories);
    assert AllListedPresent(fine, categories) by {
      forall i, m | 0 <= i < |categories| && 0 <= m < |categories[i].1|
        ensures categories[i].1[m] in Keys(fine)
      {
        assert Listed(categories, categories[i].1[m]);
      }
    }
    GroupedSum(fine, categories, GroupRsvps(fine, categories).value);
    SumLookups(fine, Flatten(categories));
  }
}
