/**
 * What `gen_groups` guarantees about the three arrays it returns, for every
 * dict, order, block count, group size and choice of shuffles it accepts.
 * Throughout, `total` is the sum of the dict's headcounts, `Ngroup` is
 * `total div groupsize` and `chairs` is `Chairs(total, groupsize)`.
 */
module Properties {
  import opened Wrappers
  import opened Arrays
  import opened Dicts
  import opened Categories
  import opened Shuffle
  import opened Balance
  import opened Roster
  import opened Seating
  import opened Arrangement

  /** A successful run is `Arrange` applied to the ordered headcounts. */
  lemma GenGroupsArrange(rsvps: Dict<nat>, order: seq<Key>, nblocks: nat, groupsize: nat, shuffles: seq<BlockShuffle>, g: Groups)
    requires WellFormed(rsvps, order, nblocks, shuffles)
    requires GenGroups(rsvps, order, nblocks, groupsize, shuffles) == Ok(g)
    ensures groupsize > 0 && AllPresent(rsvps, order)
    ensures Total(rsvps) == Sum(Sizes(rsvps, order)) + Others(rsvps, order)
    ensures Arrangeable(order, Sizes(rsvps, order), Others(rsvps, order), shuffles, Total(rsvps) / groupsize, Chairs(Total(rsvps), groupsize))
    ensures g == Arrange(order, Sizes(rsvps, order), Others(rsvps, order), shuffles, Total(rsvps) / groupsize, Chairs(Total(rsvps), groupsize))
  {
    TotalIsSum(rsvps, order);
  }

  /**
   * One participant entry per person of a listed category, one `locs` row per
   * person counted in `total`, one roster row per (block, table), `chairs + 2`
   * columns per roster row; `Ngroup` full groups fit in `total` and a further
   * group would not.
   */
  lemma GenGroupsShape(rsvps: Dict<nat>, order: seq<Key>, nblocks: nat, groupsize: nat, shuffles: seq<BlockShuffle>, g: Groups)
    requires WellFormed(rsvps, order, nblocks, shuffles)
    requires GenGroups(rsvps, order, nblocks, groupsize, shuffles) == Ok(g)
    ensures groupsize > 0
    ensures var total := Total(rsvps);
      && Shaped(g, Sum(Sizes(rsvps, order)), total, nblocks, total / groupsize, Chairs(total, groupsize))
      && (total / groupsize) * groupsize <= total < (total / groupsize) * groupsize + groupsize
  {
    GenGroupsArrange(rsvps, order, nblocks, groupsize, shuffles, g);
    ArrangeShape(order, Sizes(rsvps, order), Others(rsvps, order), shuffles, Total(rsvps) / groupsize, Chairs(Total(rsvps), groupsize));
    SeatsSuffice(Total(rsvps), groupsize);
  }

  /** `participant_list` is the categories of `order`, each repeated by its headcount. */
  lemma GenGroupsParticipantList(rsvps: Dict<nat>, order: seq<Key>, nblocks: nat, groupsize: nat, shuffles: seq<BlockShuffle>, g: Groups)
    requires WellFormed(rsvps, order, nblocks, shuffles)
    requires GenGroups(rsvps, order, nblocks, groupsize, shuffles) == Ok(g)
    ensures AllPresent(rsvps, order)
    ensures g.participants == Participants(order, Sizes(rsvps, order))
  {
    GenGroupsArrange(rsvps, order, nblocks, groupsize, shuffles, g);
  }

  /**
   * `participant_list` holds every category of `order` exactly as many times
   * as its headcount in the dict, holds no key the order leaves out, and lists
   * the categories in the order given.
   */
  lemma GenGroupsParticipants(rsvps: Dict<nat>, order: seq<Key>, nblocks: nat, groupsize: nat, shuffles: seq<BlockShuffle>, g: Groups)
    requires WellFormed(rsvps, order, nblocks, shuffles)
    requires GenGroups(rsvps, order, nblocks, groupsize, shuffles) == Ok(g)
    ensures forall j :: 0 <= j < |order| ==> Get(rsvps, order[j]) == Some(multiset(g.participants)[order[j]])
    ensures forall i :: 0 <= i < |g.participants| ==> g.participants[i] in Keys(rsvps)
    ensures forall k :: k !in order ==> multiset(g.participants)[k] == 0
    ensures |g.participants| + Others(rsvps, order) == Total(rsvps)
    ensures forall i, i', j, j' ::
      (0 <= i < |g.participants| && 0 <= i' < |g.participants| && 0 <= j < j' < |order|
       && g.participants[i] == order[j] && g.participants[i'] == order[j']) ==> i < i'
  {
    GenGroupsParticipantList(rsvps, order, nblocks, groupsize, shuffles, g);
    ParticipantList(rsvps, order);
    ParticipantsOrdered(order, Sizes(rsvps, order));
  }

  /**
   * `locs[i, b]` is a table number 1..Ngroup, namely `(pinds[i] mod Ngroup) + 1`
   * for block b's `pinds`, which permutes 0..total-1, keeps each category's
   * range onto itself and leaves the people outside the order in place, so
   * that they sit at the same table in every block.
   */
  lemma GenGroupsLocs(rsvps: Dict<nat>, order: seq<Key>, nblocks: nat, groupsize: nat, shuffles: seq<BlockShuffle>, g: Groups)
    requires WellFormed(rsvps, order, nblocks, shuffles)
    requires GenGroups(rsvps, order, nblocks, groupsize, shuffles) == Ok(g)
    ensures groupsize > 0
    ensures var total := Total(rsvps);
      Shaped(g, Sum(Sizes(rsvps, order)), total, nblocks, total / groupsize, Chairs(total, groupsize))
    ensures var total, sizes, others := Total(rsvps), Sizes(rsvps, order), Others(rsvps, order);
      forall i, b :: 0 <= i < total && 0 <= b < nblocks ==>
        && 1 <= g.locs[i][b] <= total / groupsize
        && g.locs[i][b] == BlockOrder(sizes, others, shuffles, b)[i] % (total / groupsize) + 1
    ensures var sizes, others := Sizes(rsvps, order), Others(rsvps, order);
      forall b :: 0 <= b < nblocks ==>
        && IsPermutation(BlockOrder(sizes, others, shuffles, b), Total(rsvps))
        && Segmented(BlockOrder(sizes, others, shuffles, b), Ranges(sizes, others))
    ensures var total := Total(rsvps);
      forall i, b :: |g.participants| <= i < total && 0 <= b < nblocks ==>
        g.locs[i][b] == i % (total / groupsize) + 1
  {
    GenGroupsShape(rsvps, order, nblocks, groupsize, shuffles, g);
    GenGroupsArrange(rsvps, order, nblocks, groupsize, shuffles, g);
    var total, sizes, others := Total(rsvps), Sizes(rsvps, order), Others(rsvps, order);
    var ngroup := total / groupsize;
    ArrangeLocs(order, sizes, others, shuffles, ngroup, Chairs(total, groupsize));
    forall b | 0 <= b < nblocks
      ensures IsPermutation(BlockOrder(sizes, others, shuffles, b), total)
    {
      BlockOrderPermutation(sizes, others, shuffles, b, total);
    }
  }

  /**
   * `tables` has one row per (block, table): row `RowIndex(b, t)` starts with
   * the labels b + 1 and t, and every row's labels name a block and a table
   * and lead back to that row.
   */
  lemma GenGroupsRoster(rsvps: Dict<nat>, order: seq<Key>, nblocks: nat, groupsize: nat, shuffles: seq<BlockShuffle>, g: Groups)
    requires WellFormed(rsvps, order, nblocks, shuffles)
    requires GenGroups(rsvps, order, nblocks, groupsize, shuffles) == Ok(g)
    ensures groupsize > 0
    ensures var ngroup := Total(rsvps) / groupsize;
      |g.tables| == ngroup * nblocks
      && forall b, t :: 0 <= b < nblocks && 1 <= t <= ngroup ==>
        RowIndex(b, t, ngroup) < |g.tables| && g.tables[RowIndex(b, t, ngroup)][..2] == [b + 1, t]
    ensures var ngroup := Total(rsvps) / groupsize;
      forall r :: 0 <= r < |g.tables| ==>
        && 1 <= g.tables[r][0] <= nblocks && 1 <= g.tables[r][1] <= ngroup
        && r == RowIndex(g.tables[r][0] - 1, g.tables[r][1], ngroup)
  {
    var total, sizes, others := Total(rsvps), Sizes(rsvps, order), Others(rsvps, order);
    var ngroup, chairs := total / groupsize, Chairs(total, groupsize);
    GenGroupsShape(rsvps, order, nblocks, groupsize, shuffles, g);
    assert Arrangeable(order, sizes, others, shuffles, ngroup, chairs) && g == Arrange(order, sizes, others, shuffles, ngroup, chairs) by {
      GenGroupsArrange(rsvps, order, nblocks, groupsize, shuffles, g);
    }
    forall b, t | 0 <= b < nblocks && 1 <= t <= ngroup
      ensures RowIndex(b, t, ngroup) < |g.tables| && g.tables[RowIndex(b, t, ngroup)][..2] == [b + 1, t]
    {
      ArrangeRowSeats(order, sizes, others, shuffles, ngroup, chairs, b, t);
    }
    forall r | 0 <= r < |g.tables|
      ensures 1 <= g.tables[r][0] <= nblocks && 1 <= g.tables[r][1] <= ngroup
      ensures r == RowIndex(g.tables[r][0] - 1, g.tables[r][1], ngroup)
    {
      ArrangeLabels(order, sizes, others, shuffles, ngroup, chairs, r);
    }
  }

  /**
   * The row of table t in block b seats exactly the participants whose `locs`
   * entry for block b is t, in ascending order and followed by -1s.
   */
  lemma GenGroupsSeats(rsvps: Dict<nat>, order: seq<Key>, nblocks: nat, groupsize: nat, shuffles: seq<BlockShuffle>, g: Groups, b: nat, t: nat)
    requires WellFormed(rsvps, order, nblocks, shuffles)
    requires GenGroups(rsvps, order, nblocks, groupsize, shuffles) == Ok(g)
    requires groupsize > 0 && b < nblocks && 1 <= t <= Total(rsvps) / groupsize
    ensures var ngroup, chairs := Total(rsvps) / groupsize, Chairs(Total(rsvps), groupsize);
      Shaped(g, Sum(Sizes(rsvps, order)), Total(rsvps), nblocks, ngroup, chairs) && RowIndex(b, t, ngroup) < |g.tables|
    ensures var ngroup, chairs := Total(rsvps) / groupsize, Chairs(Total(rsvps), groupsize);
      var seats := g.tables[RowIndex(b, t, ngroup)][2..];
      && |seats| == chairs
      && (forall i :: 0 <= i < Total(rsvps) ==> ((i as int) in seats <==> g.locs[i][b] == t))
      && (forall c, d :: 0 <= c < d < chairs && seats[d] != -1 ==> 0 <= seats[c] < seats[d])
      && (forall c :: 0 <= c < chairs ==> seats[c] == -1 || 0 <= seats[c] < Total(rsvps))
  {
    var total, sizes, others := Total(rsvps), Sizes(rsvps, order), Others(rsvps, order);
    var ngroup, chairs := total / groupsize, Chairs(total, groupsize);
    assert Arrangeable(order, sizes, others, shuffles, ngroup, chairs) && g == Arrange(order, sizes, others, shuffles, ngroup, chairs)
      && total == Sum(sizes) + others by {
      GenGroupsArrange(rsvps, order, nblocks, groupsize, shuffles, g);
    }
    ArrangeSeats(order, sizes, others, shuffles, ngroup, chairs, b, t);
  }

  /** In every block, every participant is seated at the table `locs` gives them. */
  lemma GenGroupsEveryoneSeated(rsvps: Dict<nat>, order: seq<Key>, nblocks: nat, groupsize: nat, shuffles: seq<BlockShuffle>, g: Groups)
    requires WellFormed(rsvps, order, nblocks, shuffles)
    requires GenGroups(rsvps, order, nblocks, groupsize, shuffles) == Ok(g)
    ensures groupsize > 0
    ensures var total := Total(rsvps);
      Shaped(g, Sum(Sizes(rsvps, order)), total, nblocks, total / groupsize, Chairs(total, groupsize))
    ensures var total := Total(rsvps);
      forall i, b :: 0 <= i < total && 0 <= b < nblocks ==>
        && 1 <= g.locs[i][b] <= total / groupsize
        && RowIndex(b, g.locs[i][b], total / groupsize) < |g.tables|
        && (i as int) in g.tables[RowIndex(b, g.locs[i][b], total / groupsize)][2..]
  {
    GenGroupsLocs(rsvps, order, nblocks, groupsize, shuffles, g);
    var total := Total(rsvps);
    forall i, b | 0 <= i < total && 0 <= b < nblocks
      ensures RowIndex(b, g.locs[i][b], total / groupsize) < |g.tables|
      ensures (i as int) in g.tables[RowIndex(b, g.locs[i][b], total / groupsize)][2..]
    {
      GenGroupsSeats(rsvps, order, nblocks, groupsize, shuffles, g, b, g.locs[i][b]);
    }
  }

  /**
   * Every table of every block holds the floor or the ceiling of
   * `total / Ngroup` people, never more than `chairs`; of each category k it
   * holds the floor or the ceiling of `rsvpdict[k] / Ngroup`.
   */
  lemma GenGroupsBalance(rsvps: Dict<nat>, order: seq<Key>, nblocks: nat, groupsize: nat, shuffles: seq<BlockShuffle>, g: Groups, b: nat, t: nat)
    requires WellFormed(rsvps, order, nblocks, shuffles)
    requires GenGroups(rsvps, order, nblocks, groupsize, shuffles) == Ok(g)
    requires groupsize > 0 && b < nblocks && 1 <= t <= Total(rsvps) / groupsize
    ensures var ngroup, chairs := Total(rsvps) / groupsize, Chairs(Total(rsvps), groupsize);
      Shaped(g, Sum(Sizes(rsvps, order)), Total(rsvps), nblocks, ngroup, chairs) && RowIndex(b, t, ngroup) < |g.tables|
    ensures var ngroup := Total(rsvps) / groupsize;
      var seats := g.tables[RowIndex(b, t, ngroup)][2..];
      FairShare(Occupancy(seats), Total(rsvps), ngroup) && Occupancy(seats) <= Chairs(Total(rsvps), groupsize)
    ensures var ngroup := Total(rsvps) / groupsize;
      var seats := g.tables[RowIndex(b, t, ngroup)][2..];
      forall j :: 0 <= j < |order| ==>
        Get(rsvps, order[j]).Some? && FairShare(CategoryCount(seats, g.participants, order[j]), Get(rsvps, order[j]).value, ngroup)
  {
    var total, sizes, others := Total(rsvps), Sizes(rsvps, order), Others(rsvps, order);
    var ngroup, chairs := total / groupsize, Chairs(total, groupsize);
    assert Arrangeable(order, sizes, others, shuffles, ngroup, chairs) && g == Arrange(order, sizes, others, shuffles, ngroup, chairs)
      && total == Sum(sizes) + others && AllPresent(rsvps, order) by {
      GenGroupsArrange(rsvps, order, nblocks, groupsize, shuffles, g);
    }
    ArrangeOccupancy(order, sizes, others, shuffles, ngroup, chairs, b, t);
    SizesGet(rsvps, order);
    forall j | 0 <= j < |order|
      ensures FairShare(CategoryCount(g.tables[RowIndex(b, t, ngroup)][2..], g.participants, order[j]), sizes[j], ngroup)
    {
      ArrangeCategorySeats(order, sizes, others, shuffles, ngroup, chairs, b, t, j);
    }
  }

  /** Within a run, no table holds more than one person more than any other. */
  lemma GenGroupsEven(rsvps: Dict<nat>, order: seq<Key>, nblocks: nat, groupsize: nat, shuffles: seq<BlockShuffle>, g: Groups, r: nat, r': nat)
    requires WellFormed(rsvps, order, nblocks, shuffles)
    requires GenGroups(rsvps, order, nblocks, groupsize, shuffles) == Ok(g)
    requires r < |g.tables| && r' < |g.tables|
    ensures |g.tables[r]| >= 2 && |g.tables[r']| >= 2
    ensures Occupancy(g.tables[r][2..]) <= Occupancy(g.tables[r'][2..]) + 1
  {
    GenGroupsShape(rsvps, order, nblocks, groupsize, shuffles, g);
    var total := Total(rsvps);
    var ngroup := total / groupsize;
    var b, t := RowOf(r, ngroup, nblocks);
    var b', t' := RowOf(r', ngroup, nblocks);
    GenGroupsBalance(rsvps, order, nblocks, groupsize, shuffles, g, b, t);
    GenGroupsBalance(rsvps, order, nblocks, groupsize, shuffles, g, b', t');
    CeilFloor(total, ngroup);
  }
}
