/**
 * `gen_groups`: seats every participant at one table in each block.
 *
 * The headcount `total` sets `Ngroup = total div groupsize` tables of `chairs`
 * seats, one more than `groupsize` when the division leaves a remainder.
 * In every block `pinds` is reshuffled inside each category's range and
 * participant i sits at table `(pinds[i] mod Ngroup) + 1`. The roster holds
 * one row per (block, table): the block label, the table label, then the
 * participant indices at that table in ascending order, padded with -1.
 */
module Seating {
  import opened Wrappers
  import opened Arrays
  import opened Dicts
  import opened Categories
  import opened Shuffle

  datatype SeatError =
    | MissingCategory(category: Key)      // `rsvpdict[k]` raises KeyError (line 32)
    | ZeroGroupSize                        // `total % groupsize` raises ZeroDivisionError (line 42)
    | TooFewSeats(total: nat, seats: nat)  // `np.tile(...)[pinds]` raises IndexError (line 69)

  /** The three results of `gen_groups`: `participant_list`, `locs` and `tables`. */
  datatype Groups = Groups(participants: seq<Key>, locs: seq<seq<int>>, tables: seq<seq<int>>)

  /** `chairs`: `groupsize`, widened by one seat when `total` is not a multiple of it. */
  function Chairs(total: nat, groupsize: nat): nat
    requires groupsize > 0
  {
    if total % groupsize != 0 then groupsize + 1 else groupsize
  }

  /**
   * Every table seats `groupsize` people or one more, and the extra chair is
   * added exactly when `groupsize` does not divide `total`.
   */
  lemma ChairsWiden(total: nat, groupsize: nat)
    requires groupsize > 0
    ensures groupsize <= Chairs(total, groupsize) <= groupsize + 1
    ensures Chairs(total, groupsize) == groupsize <==> total % groupsize == 0
  {
  }

  /** `np.arange(1, n + 1)`: the labels 1..n. */
  function Labels(n: nat): (r: seq<int>)
    ensures |r| == n
  {
    seq(n, k => k + 1)
  }

  /** The headcounts of the categories of `order`, in that order (0 for a missing one). */
  function Sizes(rsvps: Dict<nat>, order: seq<Key>): (s: seq<nat>)
    ensures |s| == |order|
  {
    seq(|order|, j requires 0 <= j < |order| => match Get(rsvps, order[j]) case Some(v) => v case None => 0)
  }

  /** The first category of `order` without an entry in `rsvps`, if any. */
  function FirstMissing(rsvps: Dict<nat>, order: seq<Key>): (r: Option<Key>)
    ensures r.None? <==> AllPresent(rsvps, order)
    ensures r.Some? ==> exists j: nat :: FirstAbsent(rsvps, order, j) && r.value == order[j]
    decreases |order|
  {
    if |order| == 0 then None
    else if order[0] !in Keys(rsvps) then
      assert FirstAbsent(rsvps, order, 0);
      Some(order[0])
    else
      var r := FirstMissing(rsvps, order[1..]);
      assert forall j :: 0 < j < |order| ==> order[1..][j - 1] == order[j];
      if r.Some? then
        var j: nat :| FirstAbsent(rsvps, order[1..], j) && r.value == order[1..][j];
        assert FirstAbsent(rsvps, order, j + 1);
        r
      else
        r
  }

  /**
   * The people whose keys `order` does not list (lines 21-24): counted in
   * `total` but given no entry of `participant_list`.
   */
  function Others(rsvps: Dict<nat>, order: seq<Key>): nat
  {
    Sum(Lookups(rsvps, OtherKeys(rsvps, order)))
  }

  /** Line 69: `np.tile(tableinds, chairs)[pinds]`, the table of every participant in one block. */
  function Column(pinds: seq<nat>, tiled: seq<int>): (col: seq<int>)
    requires forall i :: 0 <= i < |pinds| ==> pinds[i] < |tiled|
    ensures |col| == |pinds|
  {
    seq(|pinds|, i requires 0 <= i < |pinds| => tiled[pinds[i]])
  }

  /** `locs[:, b]`: the table of every participant in block b. */
  function BlockColumn(sizes: seq<nat>, others: nat, shuffles: seq<BlockShuffle>, b: nat, ngroup: nat, chairs: nat): (col: seq<int>)
    requires b < |shuffles| && ValidShuffles(shuffles, sizes)
    requires Sum(sizes) + others <= ngroup * chairs
    ensures |col| == Sum(sizes) + others
  {
    var p := BlockOrder(sizes, others, shuffles, b);
    SegmentedIsPermutation(p, Ranges(sizes, others));
    PermutationBounds(p, Sum(sizes) + others);
    TileLength(Labels(ngroup), chairs);
    assert chairs * ngroup == ngroup * chairs;
    Column(p, Tile(Labels(ngroup), chairs))
  }

  /** Line 73 on a row of -1s: the first `|seated|` seats take the seated indices, the rest stay -1. */
  function SeatSlots(seated: seq<nat>, chairs: nat): (slots: seq<int>)
    ensures |slots| == chairs
  {
    seq(chairs, c requires 0 <= c < chairs => if c < |seated| then seated[c] as int else -1)
  }

  /**
   * Row r of `tables`: block label, table label (lines 50-55), then the seats of
   * table `r mod Ngroup + 1` in block `r div Ngroup` (lines 71-73).
   */
  function RosterRow(cols: seq<seq<int>>, blockLabels: seq<int>, tableLabels: seq<int>, r: nat, ngroup: nat, chairs: nat): (row: seq<int>)
    requires r < ngroup * |cols|
    requires |blockLabels| == |tableLabels| == ngroup * |cols|
    ensures |row| == chairs + 2
  {
    DivBelow(r, ngroup, |cols|);
    [blockLabels[r], tableLabels[r]] + SeatSlots(Where(cols[r / ngroup], r % ngroup + 1), chairs)
  }

  /** The arrays `gen_groups` builds once its inputs have passed every check. */
  function Arrange(order: seq<Key>, sizes: seq<nat>, others: nat, shuffles: seq<BlockShuffle>, ngroup: nat, chairs: nat): (g: Groups)
    requires |order| == |sizes| && ValidShuffles(shuffles, sizes)
    requires |shuffles| == 0 || Sum(sizes) + others <= ngroup * chairs
    ensures |g.participants| == Sum(sizes)
    ensures |g.locs| == Sum(sizes) + others && forall i :: 0 <= i < |g.locs| ==> |g.locs[i]| == |shuffles|
    ensures |g.tables| == ngroup * |shuffles| && forall r :: 0 <= r < |g.tables| ==> |g.tables[r]| == chairs + 2
  {
    var total, nblocks := Sum(sizes) + others, |shuffles|;
    var cols := seq(nblocks, b requires 0 <= b < nblocks => BlockColumn(sizes, others, shuffles, b, ngroup, chairs));
    var locs := seq(total, i requires 0 <= i < total => seq(nblocks, b requires 0 <= b < nblocks => cols[b][i]));
    var blockLabels := RepeatEach(Labels(nblocks), ngroup);
    var tableLabels := Tile(Labels(ngroup), nblocks);
    RepeatEachLength(Labels(nblocks), ngroup);
    TileLength(Labels(ngroup), nblocks);
    assert nblocks * ngroup == ngroup * nblocks;
    var tables := seq(ngroup * nblocks, r requires 0 <= r < ngroup * nblocks =>
      RosterRow(cols, blockLabels, tableLabels, r, ngroup, chairs));
    Groups(Participants(order, sizes), locs, tables)
  }

  /**
   * What `gen_groups` assumes of its inputs without checking: a dict, an order
   * that names each category once, and one valid shuffle per block.
   */
  predicate WellFormed(rsvps: Dict<nat>, order: seq<Key>, nblocks: nat, shuffles: seq<BlockShuffle>)
  {
    && DistinctKeys(rsvps)
    && Distinct(order)
    && |shuffles| == nblocks
    && ValidShuffles(shuffles, Sizes(rsvps, order))
  }

  /**
   * With every category of `order` present, its ordered headcount is the dict's entry for it.
   * Stands in for SizesRanges without the range clause, which makes the balance proofs that call this lemma too costly.
   */
  lemma SizesGet(rsvps: Dict<nat>, order: seq<Key>)
    requires AllPresent(rsvps, order)
    ensures forall j :: 0 <= j < |order| ==> Get(rsvps, order[j]) == Some(Sizes(rsvps, order)[j])
  {
    forall j | 0 <= j < |order|
      ensures Get(rsvps, order[j]) == Some(Sizes(rsvps, order)[j])
    {
      assert order[j] in Keys(rsvps);
    }
  }

  /**
   * With every category of `order` present, category j's index range (its
   * mask, line 32) starts where the previous one ends and is exactly
   * `rsvpdict[order[j]]` long.
   */
  lemma SizesRanges(rsvps: Dict<nat>, order: seq<Key>)
    requires AllPresent(rsvps, order)
    ensures forall j :: 0 <= j < |order| ==>
      && order[j] in Keys(rsvps)
      && Offsets(Sizes(rsvps, order))[j] + Get(rsvps, order[j]).value == Offsets(Sizes(rsvps, order))[j + 1]
  {
    OffsetsFacts(Sizes(rsvps, order));
    SizesGet(rsvps, order);
  }

  /**
   * With every category of `order` present, the dict total is the sum of the
   * ordered headcounts plus the people outside the order.
   */
  lemma TotalIsSum(rsvps: Dict<nat>, order: seq<Key>)
    requires DistinctKeys(rsvps) && Distinct(order)
    requires AllPresent(rsvps, order)
    ensures Total(rsvps) == Sum(Sizes(rsvps, order)) + Others(rsvps, order)
  {
    TotalSplit(rsvps, order);
    assert Lookups(rsvps, order) == Sizes(rsvps, order);
  }

  /**
   * `participant_list` for a dict holding every category of `order`: each
   * category as many times as its dict entry, no key the order leaves out,
   * and everybody but the people outside the order.
   */
  lemma ParticipantList(rsvps: Dict<nat>, order: seq<Key>)
    requires DistinctKeys(rsvps) && Distinct(order)
    requires AllPresent(rsvps, order)
    ensures var p := Participants(order, Sizes(rsvps, order));
      && (forall j :: 0 <= j < |order| ==> Get(rsvps, order[j]) == Some(multiset(p)[order[j]]))
      && (forall i :: 0 <= i < |p| ==> p[i] in Keys(rsvps))
      && (forall k :: k !in order ==> multiset(p)[k] == 0)
      && |p| + Others(rsvps, order) == Total(rsvps)
  {
    var sizes := Sizes(rsvps, order);
    var p := Participants(order, sizes);
    TotalIsSum(rsvps, order);
    ParticipantsCount(order, sizes);
    SizesGet(rsvps, order);
    assert forall i :: 0 <= i < |p| ==> p[i] in Keys(rsvps) by {
      ParticipantsLabelled(order, sizes);
      forall i | 0 <= i < |p|
        ensures p[i] in Keys(rsvps)
      {
        var m :| 0 <= m < |order| && order[m] == p[i];
      }
    }
  }

  /** There is nobody outside the order exactly when the order lists every key that has people. */
  lemma OthersVanish(rsvps: Dict<nat>, order: seq<Key>)
    requires DistinctKeys(rsvps)
    ensures Others(rsvps, order) == 0 <==> forall i :: 0 <= i < |rsvps| && rsvps[i].0 !in order ==> rsvps[i].1 == 0
  {
    var ks := OtherKeys(rsvps, order);
    var vs := Lookups(rsvps, ks);
    SumZero(vs);
    if Others(rsvps, order) == 0 {
      forall i | 0 <= i < |rsvps| && rsvps[i].0 !in order
        ensures rsvps[i].1 == 0
      {
        assert rsvps[i].0 in Keys(rsvps);
        assert rsvps[i].0 in ks;
        var m :| 0 <= m < |ks| && ks[m] == rsvps[i].0;
        assert vs[m] == rsvps[i].1;
      }
    } else {
      var m :| 0 <= m < |vs| && vs[m] != 0;
      assert ks[m] in Keys(rsvps) && ks[m] !in order;
      var i :| 0 <= i < |rsvps| && rsvps[i].0 == ks[m];
    }
  }

  /**
   * `Ngroup` is the number of whole groups of `groupsize` in `total`, and the
   * `Ngroup` tables of `chairs` seats hold everyone exactly when there is
   * nobody, or there is at least one table and no more leftover people than
   * tables (each leftover person takes the extra chair of one table).
   */
  lemma SeatsSuffice(total: nat, groupsize: nat)
    requires groupsize > 0
    ensures (total / groupsize) * groupsize <= total < (total / groupsize) * groupsize + groupsize
    ensures total <= Capacity(total, groupsize) <==>
      total == 0 || (total / groupsize >= 1 && total % groupsize <= total / groupsize)
  {
    var n, rem := total / groupsize, total % groupsize;
    assert total == n * groupsize + rem;
    assert n * (groupsize + 1) == n * groupsize + n;
  }

  /** The seats of all tables of one block: `Ngroup * chairs`. */
  function Capacity(total: nat, groupsize: nat): nat
    requires groupsize > 0
  {
    (total / groupsize) * Chairs(total, groupsize)
  }

  /** Lines 48-75: the arrays, once the tables are known to hold everyone. */
  function Fill(rsvps: Dict<nat>, order: seq<Key>, nblocks: nat, groupsize: nat, shuffles: seq<BlockShuffle>): Groups
    requires WellFormed(rsvps, order, nblocks, shuffles) && AllPresent(rsvps, order) && groupsize > 0
    requires nblocks == 0 || Total(rsvps) <= Capacity(Total(rsvps), groupsize)
  {
    var total := Total(rsvps);
    var sizes, others := Sizes(rsvps, order), Others(rsvps, order);
    TotalIsSum(rsvps, order);
    Arrange(order, sizes, others, shuffles, total / groupsize, Chairs(total, groupsize))
  }

  /**
   * Lines 42-75 once every category of the order has a headcount and the group
   * size is positive: the seating fails exactly when some block is to be
   * seated and the `Ngroup` tables of `chairs` seats cannot hold everyone.
   */
  function Seat(rsvps: Dict<nat>, order: seq<Key>, nblocks: nat, groupsize: nat, shuffles: seq<BlockShuffle>): (r: Result<Groups, SeatError>)
    requires WellFormed(rsvps, order, nblocks, shuffles)
    requires AllPresent(rsvps, order) && groupsize > 0
    ensures r.Err? ==> r.error.TooFewSeats?
    ensures r.Err? <==>
      && nblocks > 0 && Total(rsvps) > 0
      && (Total(rsvps) < groupsize || Total(rsvps) % groupsize > Total(rsvps) / groupsize)
  {
    var total := Total(rsvps);
    var seats := Capacity(total, groupsize);
    SeatsSuffice(total, groupsize);
    if nblocks > 0 && total > seats then Err(TooFewSeats(total, seats))
    else Ok(Fill(rsvps, order, nblocks, groupsize, shuffles))
  }

  /**
   * `gen_groups(rsvpdict, order, Nblocks, groupsize)`, with block b's shuffle
   * of every category given by `shuffles[b]`.
   */
  function GenGroups(rsvps: Dict<nat>, order: seq<Key>, nblocks: nat, groupsize: nat, shuffles: seq<BlockShuffle>): (r: Result<Groups, SeatError>)
    requires WellFormed(rsvps, order, nblocks, shuffles)
    ensures (r.Err? && r.error.MissingCategory?) <==> !AllPresent(rsvps, order)
    ensures r.Err? && r.error.MissingCategory? ==>
      exists j: nat :: FirstAbsent(rsvps, order, j) && r.error.category == order[j]
    ensures r == Err(ZeroGroupSize) <==> AllPresent(rsvps, order) && groupsize == 0
    ensures (r.Err? && r.error.TooFewSeats?) <==>
      && AllPresent(rsvps, order) && groupsize > 0 && nblocks > 0 && Total(rsvps) > 0
      && (Total(rsvps) < groupsize || Total(rsvps) % groupsize > Total(rsvps) / groupsize)
  {
    match FirstMissing(rsvps, order)
    case Some(k) => Err(MissingCategory(k))
    case None =>
      if groupsize == 0 then Err(ZeroGroupSize)
      else Seat(rsvps, order, nblocks, groupsize, shuffles)
  }
}
