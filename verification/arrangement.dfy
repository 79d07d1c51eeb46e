/**
 * Properties of the arrays `gen_groups` builds once its checks pass, stated
 * for the headcounts `sizes` of the categories in order, `Ngroup` tables of
 * `chairs` seats and one shuffle per block.
 */
module Arrangement {
  import opened Arrays
  import opened Dicts
  import opened Categories
  import opened Shuffle
  import opened Balance
  import opened Roster
  import opened Seating

  /** What `Arrange` needs: one headcount per category, valid shuffles, and room for everyone once any block is seated. */
  predicate Arrangeable(order: seq<Key>, sizes: seq<nat>, others: nat, shuffles: seq<BlockShuffle>, ngroup: nat, chairs: nat)
  {
    |order| == |sizes| && ValidShuffles(shuffles, sizes) && (|shuffles| == 0 || Sum(sizes) + others <= ngroup * chairs)
  }

  /**
   * The dimensions of the three arrays: one `participant_list` entry per person
   * of a listed category, one `locs` row per person counted in `total`, one
   * roster row per (block, table).
   */
  predicate Shaped(g: Groups, people: nat, total: nat, nblocks: nat, ngroup: nat, chairs: nat)
  {
    && |g.participants| == people <= total
    && |g.locs| == total
    && (forall i :: 0 <= i < total ==> |g.locs[i]| == nblocks)
    && |g.tables| == ngroup * nblocks
    && (forall r :: 0 <= r < |g.tables| ==> |g.tables[r]| == chairs + 2)
  }

  /** The roster row of table t (1-based) in block b (0-based). */
  function RowIndex(b: nat, t: nat, ngroup: nat): nat
    requires t >= 1
  {
    b * ngroup + t - 1
  }

  // Stands in for Arrange's own shape ensures, through `Shaped`, so callers pull in one small predicate instead of the whole contract.
  lemma ArrangeShape(order: seq<Key>, sizes: seq<nat>, others: nat, shuffles: seq<BlockShuffle>, ngroup: nat, chairs: nat)
    requires Arrangeable(order, sizes, others, shuffles, ngroup, chairs)
    ensures Shaped(Arrange(order, sizes, others, shuffles, ngroup, chairs), Sum(sizes), Sum(sizes) + others, |shuffles|, ngroup, chairs)
  {
  }

  /** Block b's column: participant i sits at table `(pinds[i] mod Ngroup) + 1`. */
  lemma BlockColumnOf(sizes: seq<nat>, others: nat, shuffles: seq<BlockShuffle>, b: nat, ngroup: nat, chairs: nat)
    requires b < |shuffles| && ValidShuffles(shuffles, sizes) && Sum(sizes) + others <= ngroup * chairs
    requires ngroup > 0
    ensures ColumnOf(BlockColumn(sizes, others, shuffles, b, ngroup, chairs), BlockOrder(sizes, others, shuffles, b), ngroup)
  {
    var p := BlockOrder(sizes, others, shuffles, b);
    SegmentedIsPermutation(p, Ranges(sizes, others));
    PermutationBounds(p, Sum(sizes) + others);
    TileIndex(Labels(ngroup), chairs);
    assert chairs * ngroup == ngroup * chairs;
  }

  /** One entry of `locs`: person i's table in block b. */
  lemma ArrangeLoc(order: seq<Key>, sizes: seq<nat>, others: nat, shuffles: seq<BlockShuffle>, ngroup: nat, chairs: nat, i: nat, b: nat)
    requires Arrangeable(order, sizes, others, shuffles, ngroup, chairs)
    requires i < Sum(sizes) + others && b < |shuffles|
    ensures ngroup > 0
    ensures var loc := Arrange(order, sizes, others, shuffles, ngroup, chairs).locs[i][b];
      && 1 <= loc <= ngroup
      && loc == BlockOrder(sizes, others, shuffles, b)[i] % ngroup + 1
      && (Sum(sizes) <= i ==> loc == i % ngroup + 1)
  {
    assert ngroup != 0;
    var p := BlockOrder(sizes, others, shuffles, b);
    var col := BlockColumn(sizes, others, shuffles, b, ngroup, chairs);
    BlockColumnOf(sizes, others, shuffles, b, ngroup, chairs);
    assert Arrange(order, sizes, others, shuffles, ngroup, chairs).locs[i][b] == col[i];
    assert col[i] == p[i] % ngroup + 1;
  }

  /** `locs[i, b]` is the table of participant i in block b, read off block b's `pinds`. */
  lemma ArrangeLocs(order: seq<Key>, sizes: seq<nat>, others: nat, shuffles: seq<BlockShuffle>, ngroup: nat, chairs: nat)
    requires Arrangeable(order, sizes, others, shuffles, ngroup, chairs)
    ensures forall i, b :: 0 <= i < Sum(sizes) + others && 0 <= b < |shuffles| ==>
      && ngroup > 0
      && 1 <= Arrange(order, sizes, others, shuffles, ngroup, chairs).locs[i][b] <= ngroup
      && Arrange(order, sizes, others, shuffles, ngroup, chairs).locs[i][b] == BlockOrder(sizes, others, shuffles, b)[i] % ngroup + 1
    ensures forall i, b :: Sum(sizes) <= i < Sum(sizes) + others && 0 <= b < |shuffles| ==>
      Arrange(order, sizes, others, shuffles, ngroup, chairs).locs[i][b] == i % ngroup + 1
  {
    var g := Arrange(order, sizes, others, shuffles, ngroup, chairs);
    forall i, b | 0 <= i < Sum(sizes) + others && 0 <= b < |shuffles|
      ensures ngroup > 0 && 1 <= g.locs[i][b] <= ngroup && g.locs[i][b] == BlockOrder(sizes, others, shuffles, b)[i] % ngroup + 1
      ensures Sum(sizes) <= i ==> g.locs[i][b] == i % ngroup + 1
    {
      ArrangeLoc(order, sizes, others, shuffles, ngroup, chairs, i, b);
    }
  }

  /** The roster row of table t in block b is labelled (b + 1, t) and seats that table's people in that block. */
  lemma ArrangeRow(order: seq<Key>, sizes: seq<nat>, others: nat, shuffles: seq<BlockShuffle>, ngroup: nat, chairs: nat, b: nat, t: nat)
    requires Arrangeable(order, sizes, others, shuffles, ngroup, chairs)
    requires b < |shuffles| && 1 <= t <= ngroup
    ensures Sum(sizes) + others <= ngroup * chairs
    ensures RowIndex(b, t, ngroup) < |Arrange(order, sizes, others, shuffles, ngroup, chairs).tables|
    ensures Arrange(order, sizes, others, shuffles, ngroup, chairs).tables[RowIndex(b, t, ngroup)] ==
      [b + 1, t] + SeatSlots(Where(BlockColumn(sizes, others, shuffles, b, ngroup, chairs), t), chairs)
  {
    var nblocks := |shuffles|;
    var r := RowIndex(b, t, ngroup);
    assert r < ngroup * nblocks && r / ngroup == b && r % ngroup == t - 1 by {
      RowIndexDivMod(b, t, ngroup, nblocks);
    }
    var cols := seq(nblocks, k requires 0 <= k < nblocks => BlockColumn(sizes, others, shuffles, k, ngroup, chairs));
    var blockLabels := RepeatEach(Labels(nblocks), ngroup);
    var tableLabels := Tile(Labels(ngroup), nblocks);
    assert |blockLabels| == |tableLabels| == ngroup * nblocks by {
      RepeatEachLength(Labels(nblocks), ngroup);
      TileLength(Labels(ngroup), nblocks);
      assert nblocks * ngroup == ngroup * nblocks;
    }
    assert blockLabels[r] == b + 1 by {
      RepeatEachIndex(Labels(nblocks), ngroup);
      assert nblocks * ngroup == ngroup * nblocks;
    }
    assert tableLabels[r] == t by {
      TileIndex(Labels(ngroup), nblocks);
    }
    var row := RosterRow(cols, blockLabels, tableLabels, r, ngroup, chairs);
    assert Arrange(order, sizes, others, shuffles, ngroup, chairs).tables[r] == row;
    var col := BlockColumn(sizes, others, shuffles, b, ngroup, chairs);
    RosterRowAt(cols, blockLabels, tableLabels, r, ngroup, chairs, b, t);
    assert cols[b] == col;
  }

  /** Row r of the roster, read at the block and table it stands for. */
  lemma RosterRowAt(cols: seq<seq<int>>, blockLabels: seq<int>, tableLabels: seq<int>, r: nat, ngroup: nat, chairs: nat, b: nat, t: nat)
    requires r < ngroup * |cols|
    requires |blockLabels| == |tableLabels| == ngroup * |cols|
    requires r / ngroup == b && r % ngroup == t - 1
    requires blockLabels[r] == b + 1 && tableLabels[r] == t
    ensures b < |cols|
    ensures RosterRow(cols, blockLabels, tableLabels, r, ngroup, chairs) == [b + 1, t] + SeatSlots(Where(cols[b], t), chairs)
  {
    DivBelow(r, ngroup, |cols|);
  }

  /** The rows are exactly the (block, table) pairs, block-major. */
  lemma RowIndexDivMod(b: nat, t: nat, ngroup: nat, nblocks: nat)
    requires b < nblocks && 1 <= t <= ngroup
    ensures RowIndex(b, t, ngroup) < ngroup * nblocks
    ensures RowIndex(b, t, ngroup) / ngroup == b && RowIndex(b, t, ngroup) % ngroup == t - 1
  {
    DivModOf(b, ngroup, t - 1);
    assert b * ngroup + ngroup <= nblocks * ngroup by { MulSign(nblocks - b, ngroup); }
  }

  /** Every row index is the row of one (block, table) pair. */
  lemma RowOf(r: nat, ngroup: nat, nblocks: nat) returns (b: nat, t: nat)
    requires r < ngroup * nblocks
    ensures b < nblocks && 1 <= t <= ngroup && r == RowIndex(b, t, ngroup)
  {
    DivBelow(r, ngroup, nblocks);
    b, t := r / ngroup, r % ngroup + 1;
  }

  /** Every roster row's labels name a block and a table, and lead back to that row. */
  lemma ArrangeLabels(order: seq<Key>, sizes: seq<nat>, others: nat, shuffles: seq<BlockShuffle>, ngroup: nat, chairs: nat, r: nat)
    requires Arrangeable(order, sizes, others, shuffles, ngroup, chairs)
    requires r < ngroup * |shuffles|
    ensures var row := Arrange(order, sizes, others, shuffles, ngroup, chairs).tables[r];
      && 1 <= row[0] <= |shuffles| && 1 <= row[1] <= ngroup
      && r == RowIndex(row[0] - 1, row[1], ngroup)
  {
    ArrangeShape(order, sizes, others, shuffles, ngroup, chairs);
    var b, t := RowOf(r, ngroup, |shuffles|);
    ArrangeRow(order, sizes, others, shuffles, ngroup, chairs, b, t);
    var row := Arrange(order, sizes, others, shuffles, ngroup, chairs).tables[r];
    assert row[0] == b + 1 && row[1] == t;
  }

  /** Row r's seats: the ascending indices of block b's people at table t, then -1s. */
  lemma SeatSlotsFacts(w: seq<nat>, chairs: nat, participants: seq<Key>, k: Key)
    requires |w| <= chairs
    requires forall c, d :: 0 <= c < d < |w| ==> w[c] < w[d]
    ensures forall x: nat :: (x as int) in SeatSlots(w, chairs) <==> x in w
    ensures forall c, d :: 0 <= c < d < chairs && SeatSlots(w, chairs)[d] != -1 ==>
      0 <= SeatSlots(w, chairs)[c] < SeatSlots(w, chairs)[d]
    ensures forall c :: 0 <= c < chairs ==> SeatSlots(w, chairs)[c] == -1 || SeatSlots(w, chairs)[c] in w
    ensures Occupancy(SeatSlots(w, chairs)) == |w|
    ensures CategoryCount(SeatSlots(w, chairs), participants, k) == CategoryCount(w, participants, k)
  {
    var slots := SeatSlots(w, chairs);
    var ws: seq<int> := w;
    var pad: seq<int> := Repeat(-1, chairs - |w|);
    assert slots == ws + pad;
    forall x: nat
      ensures (x as int) in slots <==> x in w
    {
      if x in w {
        var c :| 0 <= c < |w| && w[c] == x;
        assert slots[c] == x;
      }
    }
    OccupancyConcat(ws, pad);
    CategoryCountConcat(ws, pad, participants, k);
    OccupancyOfIndices(w);
    EmptySeats(chairs - |w|, participants, k);
  }

  /**
   * In a block whose order is a permutation of 0..total-1, table t holds the
   * floor or the ceiling of `total / n` people, never more than `chairs`.
   */
  lemma ColumnOccupancy(col: seq<int>, p: seq<nat>, n: nat, t: int, chairs: nat, total: nat)
    requires ColumnOf(col, p, n) && 1 <= t <= n
    requires |p| == total && IsPermutation(p, total) && total <= n * chairs
    ensures FairShare(|Where(col, t)|, total, n)
    ensures |Where(col, t)| <= chairs
  {
    WhereCount(col, p, n, t, |col|);
    assert p[..|col|] == p;
    CountResidueMultiset(p, Iota(0, total), n, t - 1);
    IotaResidueBounds(0, total, n, t - 1);
    CeilBelow(total, n, chairs);
  }

  /**
   * When the block order maps category k's range lo..hi-1 onto itself, table t
   * holds the floor or the ceiling of `(hi - lo) / n` people of category k.
   */
  lemma ColumnCategoryCount(col: seq<int>, p: seq<nat>, n: nat, t: int, participants: seq<Key>, k: Key, lo: nat, hi: nat)
    requires ColumnOf(col, p, n) && 1 <= t <= n
    requires lo <= hi <= |col|
    requires forall i :: 0 <= i < |col| ==> (OfCategory(participants, i, k) <==> lo <= i < hi)
    requires multiset(p[lo..hi]) == multiset(Iota(lo, hi))
    ensures FairShare(CategoryCount(Where(col, t), participants, k), hi - lo, n)
  {
    var count := CategoryCount(Where(col, t), participants, k);
    assert count == CountResidue(p[lo..hi], n, t - 1) by {
      WhereCategoryCount(col, p, n, t, |col|, participants, k, lo, hi);
      assert Clamp(lo, hi, |col|) == hi;
    }
    assert count == CountResidue(Iota(lo, hi), n, t - 1) by {
      CountResidueMultiset(p[lo..hi], Iota(lo, hi), n, t - 1);
    }
    IotaResidueBounds(lo, hi, n, t - 1);
  }

  /**
   * The seats of the row of table t in block b are the ascending indices of
   * the people block b puts at table t, then -1s.
   */
  lemma ArrangeRowSeats(order: seq<Key>, sizes: seq<nat>, others: nat, shuffles: seq<BlockShuffle>, ngroup: nat, chairs: nat, b: nat, t: nat)
    requires Arrangeable(order, sizes, others, shuffles, ngroup, chairs)
    requires b < |shuffles| && 1 <= t <= ngroup
    ensures Shaped(Arrange(order, sizes, others, shuffles, ngroup, chairs), Sum(sizes), Sum(sizes) + others, |shuffles|, ngroup, chairs)
    ensures RowIndex(b, t, ngroup) < ngroup * |shuffles|
    ensures |Where(BlockColumn(sizes, others, shuffles, b, ngroup, chairs), t)| <= chairs
    ensures Arrange(order, sizes, others, shuffles, ngroup, chairs).tables[RowIndex(b, t, ngroup)][..2] == [b + 1, t]
    ensures Arrange(order, sizes, others, shuffles, ngroup, chairs).tables[RowIndex(b, t, ngroup)][2..] ==
      SeatSlots(Where(BlockColumn(sizes, others, shuffles, b, ngroup, chairs), t), chairs)
  {
    ArrangeShape(order, sizes, others, shuffles, ngroup, chairs);
    ArrangeRow(order, sizes, others, shuffles, ngroup, chairs, b, t);
    BlockOccupancy(sizes, others, shuffles, b, ngroup, chairs, t);
  }

  /** Table t of block b receives the floor or the ceiling of `total / Ngroup` people, never more than `chairs`. */
  lemma BlockOccupancy(sizes: seq<nat>, others: nat, shuffles: seq<BlockShuffle>, b: nat, ngroup: nat, chairs: nat, t: nat)
    requires b < |shuffles| && ValidShuffles(shuffles, sizes) && Sum(sizes) + others <= ngroup * chairs
    requires 1 <= t <= ngroup
    ensures FairShare(|Where(BlockColumn(sizes, others, shuffles, b, ngroup, chairs), t)|, Sum(sizes) + others, ngroup)
    ensures |Where(BlockColumn(sizes, others, shuffles, b, ngroup, chairs), t)| <= chairs
  {
    var col := BlockColumn(sizes, others, shuffles, b, ngroup, chairs);
    var p := BlockOrder(sizes, others, shuffles, b);
    assert ColumnOf(col, p, ngroup) by {
      BlockColumnOf(sizes, others, shuffles, b, ngroup, chairs);
    }
    assert IsPermutation(p, Sum(sizes) + others) by {
      SegmentedIsPermutation(p, Ranges(sizes, others));
    }
    ColumnOccupancy(col, p, ngroup, t, chairs, Sum(sizes) + others);
  }

  /**
   * When the seating order keeps every category's range onto itself, table t
   * receives the floor or the ceiling of `sizes[j] / n` people of category j.
   */
  lemma SegmentedCategoryCount(order: seq<Key>, sizes: seq<nat>, others: nat, p: seq<nat>, col: seq<int>, n: nat, t: nat, j: nat)
    requires |order| == |sizes| && Distinct(order) && j < |order|
    requires Segmented(p, Ranges(sizes, others)) && ColumnOf(col, p, n) && 1 <= t <= n
    ensures FairShare(CategoryCount(Where(col, t), Participants(order, sizes), order[j]), sizes[j], n)
  {
    var participants := Participants(order, sizes);
    var ranges := Ranges(sizes, others);
    var k := order[j];
    var lo, hi := Offsets(sizes)[j], Offsets(sizes)[j + 1];
    assert lo <= hi <= Sum(sizes) <= |col| && hi - lo == sizes[j] by {
      OffsetsFacts(sizes);
    }
    assert forall i :: 0 <= i < |col| ==> (OfCategory(participants, i, k) <==> lo <= i < hi) by {
      ParticipantsInRange(order, sizes);
      forall i | 0 <= i < |col|
        ensures OfCategory(participants, i, k) <==> lo <= i < hi
      {
        if i < Sum(sizes) {
          assert participants[i] == k <==> InRange(sizes, j, i);
        }
      }
    }
    assert multiset(p[lo..hi]) == multiset(Iota(lo, hi)) by {
      assert SliceIsRange(p, ranges, j);
      OffsetsPrefix(ranges, |sizes|);
      assert Offsets(ranges)[j] == lo && Offsets(ranges)[j + 1] == hi;
    }
    ColumnCategoryCount(col, p, n, t, participants, k, lo, hi);
  }

  /**
   * The row of table t in block b seats exactly the participants whose `locs`
   * entry for block b is t, in ascending order followed by -1s.
   */
  lemma ArrangeSeats(order: seq<Key>, sizes: seq<nat>, others: nat, shuffles: seq<BlockShuffle>, ngroup: nat, chairs: nat, b: nat, t: nat)
    requires Arrangeable(order, sizes, others, shuffles, ngroup, chairs)
    requires b < |shuffles| && 1 <= t <= ngroup
    ensures Shaped(Arrange(order, sizes, others, shuffles, ngroup, chairs), Sum(sizes), Sum(sizes) + others, |shuffles|, ngroup, chairs)
    ensures RowIndex(b, t, ngroup) < ngroup * |shuffles|
    ensures var g := Arrange(order, sizes, others, shuffles, ngroup, chairs);
      var seats := g.tables[RowIndex(b, t, ngroup)][2..];
      && (forall i :: 0 <= i < Sum(sizes) + others ==> ((i as int) in seats <==> g.locs[i][b] == t))
      && (forall c, d :: 0 <= c < d < chairs && seats[d] != -1 ==> 0 <= seats[c] < seats[d])
      && (forall c :: 0 <= c < chairs ==> seats[c] == -1 || 0 <= seats[c] < Sum(sizes) + others)
  {
    ArrangeRowSeats(order, sizes, others, shuffles, ngroup, chairs, b, t);
    var col := BlockColumn(sizes, others, shuffles, b, ngroup, chairs);
    SeatSlotsFacts(Where(col, t), chairs, [], "");
    ArrangeLocs(order, sizes, others, shuffles, ngroup, chairs);
  }

  /** The row of table t in block b holds the floor or the ceiling of `total / Ngroup` people, never more than `chairs`. */
  lemma ArrangeOccupancy(order: seq<Key>, sizes: seq<nat>, others: nat, shuffles: seq<BlockShuffle>, ngroup: nat, chairs: nat, b: nat, t: nat)
    requires Arrangeable(order, sizes, others, shuffles, ngroup, chairs)
    requires b < |shuffles| && 1 <= t <= ngroup
    ensures Shaped(Arrange(order, sizes, others, shuffles, ngroup, chairs), Sum(sizes), Sum(sizes) + others, |shuffles|, ngroup, chairs)
    ensures RowIndex(b, t, ngroup) < ngroup * |shuffles|
    ensures var seats := Arrange(order, sizes, others, shuffles, ngroup, chairs).tables[RowIndex(b, t, ngroup)][2..];
      FairShare(Occupancy(seats), Sum(sizes) + others, ngroup) && Occupancy(seats) <= chairs
  {
    ArrangeRowSeats(order, sizes, others, shuffles, ngroup, chairs, b, t);
    var w := Where(BlockColumn(sizes, others, shuffles, b, ngroup, chairs), t);
    BlockOccupancy(sizes, others, shuffles, b, ngroup, chairs, t);
    SeatSlotsFacts(w, chairs, [], "");
  }

  /**
   * The row of table t in block b holds the floor or the ceiling of
   * `sizes[j] / Ngroup` people of category j: the per-category shuffle keeps
   * every table mixed.
   */
  lemma ArrangeCategorySeats(order: seq<Key>, sizes: seq<nat>, others: nat, shuffles: seq<BlockShuffle>, ngroup: nat, chairs: nat, b: nat, t: nat, j: nat)
    requires Arrangeable(order, sizes, others, shuffles, ngroup, chairs) && Distinct(order)
    requires b < |shuffles| && 1 <= t <= ngroup && j < |order|
    ensures Shaped(Arrange(order, sizes, others, shuffles, ngroup, chairs), Sum(sizes), Sum(sizes) + others, |shuffles|, ngroup, chairs)
    ensures RowIndex(b, t, ngroup) < ngroup * |shuffles|
    ensures var g := Arrange(order, sizes, others, shuffles, ngroup, chairs);
      FairShare(CategoryCount(g.tables[RowIndex(b, t, ngroup)][2..], g.participants, order[j]), sizes[j], ngroup)
  {
    ArrangeRowSeats(order, sizes, others, shuffles, ngroup, chairs, b, t);
    var col := BlockColumn(sizes, others, shuffles, b, ngroup, chairs);
    var p := BlockOrder(sizes, others, shuffles, b);
    var participants := Participants(order, sizes);
    assert Arrange(order, sizes, others, shuffles, ngroup, chairs).participants == participants;
    BlockColumnOf(sizes, others, shuffles, b, ngroup, chairs);
    SegmentedCategoryCount(order, sizes, others, p, col, ngroup, t, j);
    SeatSlotsFacts(Where(col, t), chairs, participants, order[j]);
  }
}
