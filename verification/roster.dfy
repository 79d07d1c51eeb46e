/**
 * Counting helpers for a roster row's seats and the link between a block's
 * table column and the seats `np.where` collects from it.
 *
 * A block's column is `(pinds[i] mod Ngroup) + 1` for every participant i, so
 * the people at table t are the positions whose `pinds` value leaves remainder
 * t - 1. Counting them reduces to counting residues of `pinds`.
 */
module Roster {
  import opened Arrays
  import opened Dicts
  import opened Balance

  /** The seats of a row that hold a participant; the others hold -1. */
  function Occupancy(seats: seq<int>): nat
  {
    if |seats| == 0 then 0
    else Occupancy(seats[..|seats| - 1]) + (if seats[|seats| - 1] >= 0 then 1 else 0)
  }

  /** Seat entry s holds a participant of category k (not -1, not someone outside `participant_list`). */
  predicate OfCategory(participants: seq<Key>, s: int, k: Key)
  {
    0 <= s < |participants| && participants[s] == k
  }

  /** The seats of a row that hold a participant of category k. */
  function CategoryCount(seats: seq<int>, participants: seq<Key>, k: Key): nat
  {
    if |seats| == 0 then 0
    else
      CategoryCount(seats[..|seats| - 1], participants, k)
        + (if OfCategory(participants, seats[|seats| - 1], k) then 1 else 0)
  }

  /** `col` is the table column of the seating order `p` over n tables. */
  predicate ColumnOf(col: seq<int>, p: seq<nat>, n: nat)
  {
    n > 0 && |col| == |p| && forall i :: 0 <= i < |p| ==> col[i] == p[i] % n + 1
  }

  lemma {:induction false} OccupancyConcat(a: seq<int>, b: seq<int>)
    ensures Occupancy(a + b) == Occupancy(a) + Occupancy(b)
    decreases |b|
  {
    if |b| == 0 {
      assert a + b == a;
    } else {
      assert (a + b)[..|a + b| - 1] == a + b[..|b| - 1];
      OccupancyConcat(a, b[..|b| - 1]);
    }
  }

  lemma {:induction false} CategoryCountConcat(a: seq<int>, b: seq<int>, participants: seq<Key>, k: Key)
    ensures CategoryCount(a + b, participants, k) == CategoryCount(a, participants, k) + CategoryCount(b, participants, k)
    decreases |b|
  {
    if |b| == 0 {
      assert a + b == a;
    } else {
      assert (a + b)[..|a + b| - 1] == a + b[..|b| - 1];
      CategoryCountConcat(a, b[..|b| - 1], participants, k);
    }
  }

  /** A list of participant indices occupies one seat per entry. */
  lemma {:induction false} OccupancyOfIndices(w: seq<nat>)
    ensures Occupancy(w) == |w|
  {
    if |w| > 0 {
      OccupancyOfIndices(w[..|w| - 1]);
    }
  }

  /** Empty seats hold nobody. */
  lemma {:induction false} EmptySeats(c: nat, participants: seq<Key>, k: Key)
    ensures Occupancy(Repeat(-1, c)) == 0
    ensures CategoryCount(Repeat(-1, c), participants, k) == 0
  {
    if c > 0 {
      assert Repeat(-1, c)[..c - 1] == Repeat(-1, c - 1);
      EmptySeats(c - 1, participants, k);
    }
  }

  /** The number of people `np.where` finds at table t is the count of values of `p` with remainder t - 1. */
  lemma {:induction false} WhereCount(col: seq<int>, p: seq<nat>, n: nat, t: int, m: nat)
    requires ColumnOf(col, p, n) && 1 <= t <= n && m <= |col|
    ensures |WhereBelow(col, t, m)| == CountResidue(p[..m], n, t - 1)
  {
    if m == 0 {
      assert p[..0] == [];
    } else {
      WhereCount(col, p, n, t, m - 1);
      assert p[..m][..m - 1] == p[..m - 1];
    }
  }

  /** m clamped into [lo, hi]. */
  function Clamp(lo: nat, hi: nat, m: nat): (e: nat)
    requires lo <= hi
    ensures lo <= e <= hi
  {
    if m < lo then lo else if m > hi then hi else m
  }

  /**
   * When the participants of category k are exactly the positions lo..hi-1,
   * the people of category k at table t are the positions of that range whose
   * `p` value leaves remainder t - 1.
   */
  lemma {:induction false} WhereCategoryCount(col: seq<int>, p: seq<nat>, n: nat, t: int, m: nat,
                                              participants: seq<Key>, k: Key, lo: nat, hi: nat)
    requires ColumnOf(col, p, n) && 1 <= t <= n && m <= |col|
    requires lo <= hi <= |col|
    requires forall i :: 0 <= i < |col| ==> (OfCategory(participants, i, k) <==> lo <= i < hi)
    ensures CategoryCount(WhereBelow(col, t, m), participants, k) == CountResidue(p[lo..Clamp(lo, hi, m)], n, t - 1)
  {
    if m == 0 {
      assert p[lo..lo] == [];
    } else {
      WhereCategoryCount(col, p, n, t, m - 1, participants, k, lo, hi);
      WhereCategoryCountStep(col, p, n, t, m, participants, k, lo, hi);
    }
  }

  /** The step of `WhereCategoryCount`: position m - 1 adds to both counts or to neither. */
  lemma WhereCategoryCountStep(col: seq<int>, p: seq<nat>, n: nat, t: int, m: nat,
                               participants: seq<Key>, k: Key, lo: nat, hi: nat)
    requires ColumnOf(col, p, n) && 1 <= t <= n && 0 < m <= |col|
    requires lo <= hi <= |col|
    requires forall i :: 0 <= i < |col| ==> (OfCategory(participants, i, k) <==> lo <= i < hi)
    requires CategoryCount(WhereBelow(col, t, m - 1), participants, k) == CountResidue(p[lo..Clamp(lo, hi, m - 1)], n, t - 1)
    ensures CategoryCount(WhereBelow(col, t, m), participants, k) == CountResidue(p[lo..Clamp(lo, hi, m)], n, t - 1)
  {
    var x := m - 1;
    calc {
      CategoryCount(WhereBelow(col, t, m), participants, k);
      == { CategoryCountStep(col, t, m, participants, k); }
      CategoryCount(WhereBelow(col, t, x), participants, k) + (if col[x] == t && OfCategory(participants, x, k) then 1 else 0);
      == { ColumnTable(col, p, n, t, x);
           assert OfCategory(participants, x, k) <==> lo <= x < hi; }
      CountResidue(p[lo..Clamp(lo, hi, x)], n, t - 1) + (if lo <= x < hi && p[x] % n == t - 1 then 1 else 0);
      == { ClampStep(p, lo, hi, m, n, t - 1); }
      CountResidue(p[lo..Clamp(lo, hi, m)], n, t - 1);
    }
  }

  /** Position x of a column is at table t exactly when its `pinds` value leaves remainder t - 1. */
  lemma ColumnTable(col: seq<int>, p: seq<nat>, n: nat, t: int, x: nat)
    requires ColumnOf(col, p, n) && 1 <= t <= n && x < |col|
    ensures col[x] == t <==> p[x] % n == t - 1
  {
  }

  /** Extending the search by position m - 1 adds it to the count when it is at table t and in category k. */
  lemma CategoryCountStep(col: seq<int>, t: int, m: nat, participants: seq<Key>, k: Key)
    requires 0 < m <= |col|
    ensures CategoryCount(WhereBelow(col, t, m), participants, k) ==
      CategoryCount(WhereBelow(col, t, m - 1), participants, k) + (if col[m - 1] == t && OfCategory(participants, m - 1, k) then 1 else 0)
  {
    WhereStep(col, t, m);
    if col[m - 1] == t {
      CategoryCountSnoc(WhereBelow(col, t, m - 1), m - 1, participants, k);
    }
  }

  /** Extending the clamped window by position m - 1 adds it when it lies in [lo, hi) and has remainder r. */
  lemma ClampStep(p: seq<nat>, lo: nat, hi: nat, m: nat, n: nat, r: nat)
    requires 0 < m && lo <= hi <= |p| && n > 0
    ensures CountResidue(p[lo..Clamp(lo, hi, m)], n, r) ==
      CountResidue(p[lo..Clamp(lo, hi, m - 1)], n, r) + (if lo <= m - 1 < hi && p[m - 1] % n == r then 1 else 0)
  {
    if lo <= m - 1 < hi {
      CountResidueSnoc(p, lo, m - 1, n, r);
    }
  }

  lemma WhereStep(col: seq<int>, t: int, m: nat)
    requires 0 < m <= |col|
    ensures col[m - 1] == t ==> WhereBelow(col, t, m) == WhereBelow(col, t, m - 1) + [m - 1]
    ensures col[m - 1] != t ==> WhereBelow(col, t, m) == WhereBelow(col, t, m - 1)
  {
    assert WhereBelow(col, t, m - 1) + [] == WhereBelow(col, t, m - 1);
  }

  lemma CategoryCountSnoc(a: seq<int>, x: nat, participants: seq<Key>, k: Key)
    ensures CategoryCount(a + [x], participants, k) ==
      CategoryCount(a, participants, k) + (if OfCategory(participants, x, k) then 1 else 0)
  {
    assert (a + [x])[..|a|] == a;
  }

  lemma CountResidueSnoc(p: seq<nat>, lo: nat, x: nat, n: nat, r: nat)
    requires lo <= x < |p| && n > 0
    ensures CountResidue(p[lo..x + 1], n, r) == CountResidue(p[lo..x], n, r) + (if p[x] % n == r then 1 else 0)
  {
    assert p[lo..x + 1][..x - lo] == p[lo..x];
  }
}
