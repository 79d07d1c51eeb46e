/**
 * The per-block shuffle of `gen_groups`: the permutation `pinds` of participant
 * indices, reshuffled in every block only inside each category's range.
 *
 * `np.random.shuffle` is not modelled as a random source. Each block instead
 * receives, for every category, the index permutation the shuffle applied to
 * that category's slice; any such family of permutations is allowed.
 */
module Shuffle {
  import opened Arrays
  import opened Categories

  /** For each category of the order, the permutation applied to its slice of `pinds`. */
  type BlockShuffle = seq<seq<nat>>

  predicate ValidShuffle(sh: BlockShuffle, sizes: seq<nat>)
  {
    |sh| == |sizes| && forall j :: 0 <= j < |sizes| ==> IsPermutation(sh[j], sizes[j])
  }

  predicate ValidShuffles(shuffles: seq<BlockShuffle>, sizes: seq<nat>)
  {
    forall b :: 0 <= b < |shuffles| ==> ValidShuffle(shuffles[b], sizes)
  }

  /** `sh` permutes the first `|sh|` ranges of `sizes` and leaves the rest alone. */
  predicate ShufflesPrefix(sh: BlockShuffle, sizes: seq<nat>)
  {
    |sh| <= |sizes| && forall j :: 0 <= j < |sh| ==> IsPermutation(sh[j], sizes[j])
  }

  /**
   * The index ranges of `pinds`: one per category of the order, then one for
   * the `others` people whose keys the order does not list. They are counted
   * in `total` but belong to no mask, so no shuffle touches their range.
   */
  function Ranges(sizes: seq<nat>, others: nat): (r: seq<nat>)
    ensures |r| == |sizes| + 1 && r[..|sizes|] == sizes && r[|sizes|] == others
    ensures Sum(r) == Sum(sizes) + others
  {
    var r := sizes + [others];
    assert r[..|sizes|] == sizes;
    r
  }

  /** A shuffle of the order's categories leaves the range of the people outside the order alone. */
  lemma RangesShuffle(sh: BlockShuffle, sizes: seq<nat>, others: nat)
    requires ValidShuffle(sh, sizes)
    ensures ShufflesPrefix(sh, Ranges(sizes, others)) && |sh| == |sizes|
  {
    assert forall j :: 0 <= j < |sizes| ==> Ranges(sizes, others)[j] == sizes[j];
  }

  /** The slice of `p` over category j's range holds exactly the indices of that range. */
  predicate SliceIsRange(p: seq<nat>, sizes: seq<nat>, j: nat)
    requires |p| == Sum(sizes) && j < |sizes|
  {
    OffsetsFacts(sizes);
    var o := Offsets(sizes);
    multiset(p[o[j]..o[j + 1]]) == multiset(Iota(o[j], o[j + 1]))
  }

  /** `p` permutes the participant indices and maps every category's range onto itself. */
  predicate Segmented(p: seq<nat>, sizes: seq<nat>)
  {
    |p| == Sum(sizes) && forall j :: 0 <= j < |sizes| ==> SliceIsRange(p, sizes, j)
  }

  /**
   * Lines 65-67 for one category: `catinds = pinds[mask]`, shuffle it with
   * `perm`, write it back into the same positions.
   */
  function ShuffleRange(p: seq<nat>, lo: nat, hi: nat, perm: seq<nat>): (q: seq<nat>)
    requires lo <= hi <= |p| && IsPermutation(perm, hi - lo)
    ensures |q| == |p|
    ensures forall i :: 0 <= i < |p| && !(lo <= i < hi) ==> q[i] == p[i]
    ensures multiset(q[lo..hi]) == multiset(p[lo..hi])
  {
    PermutationPreservesMultiset(p[lo..hi], perm);
    var q := p[..lo] + Permute(p[lo..hi], perm) + p[hi..];
    assert q[lo..hi] == Permute(p[lo..hi], perm);
    q
  }

  /** Shuffling one category's range keeps every range mapped onto itself. */
  lemma ShuffleRangeSegmented(p: seq<nat>, sizes: seq<nat>, j: nat, perm: seq<nat>)
    requires Segmented(p, sizes) && j < |sizes|
    requires IsPermutation(perm, sizes[j])
    ensures Offsets(sizes)[j] <= Offsets(sizes)[j + 1] <= |p|
    ensures Offsets(sizes)[j + 1] - Offsets(sizes)[j] == sizes[j]
    ensures Segmented(ShuffleRange(p, Offsets(sizes)[j], Offsets(sizes)[j + 1], perm), sizes)
  {
    OffsetsFacts(sizes);
    var o := Offsets(sizes);
    var q := ShuffleRange(p, o[j], o[j + 1], perm);
    forall k | 0 <= k < |sizes|
      ensures SliceIsRange(q, sizes, k)
    {
      assert SliceIsRange(p, sizes, k);
      if k != j {
        assert o[k + 1] <= o[j] || o[j + 1] <= o[k];
        SliceUntouched(p, q, sizes, k, o[j], o[j + 1]);
      }
    }
  }

  /** A shuffle of indices lo..hi-1 leaves the slice of a range outside them as it was. */
  lemma SliceUntouched(p: seq<nat>, q: seq<nat>, sizes: seq<nat>, k: nat, lo: nat, hi: nat)
    requires |p| == |q| == Sum(sizes) && k < |sizes|
    requires forall i :: 0 <= i < |p| && !(lo <= i < hi) ==> q[i] == p[i]
    requires Offsets(sizes)[k + 1] <= lo || hi <= Offsets(sizes)[k]
    ensures SliceIsRange(q, sizes, k) == SliceIsRange(p, sizes, k)
  {
    OffsetsFacts(sizes);
    var o := Offsets(sizes);
    SliceAgrees(p, q, o[k], o[k + 1], lo, hi);
  }

  lemma SliceAgrees(p: seq<nat>, q: seq<nat>, a: nat, b: nat, lo: nat, hi: nat)
    requires a <= b <= |p| == |q|
    requires forall i :: 0 <= i < |p| && !(lo <= i < hi) ==> q[i] == p[i]
    requires b <= lo || hi <= a
    ensures q[a..b] == p[a..b]
  {
  }

  /** Lines 64-67: shuffle the ranges of categories j, j+1, ... of the order, in turn. */
  function ShuffleCategories(p: seq<nat>, sizes: seq<nat>, sh: BlockShuffle, j: nat): (q: seq<nat>)
    requires Segmented(p, sizes) && ShufflesPrefix(sh, sizes) && j <= |sh|
    ensures Segmented(q, sizes)
    ensures forall i :: Offsets(sizes)[|sh|] <= i < |p| ==> q[i] == p[i]
    decreases |sh| - j
  {
    if j == |sh| then p
    else
      ShuffleRangeSegmented(p, sizes, j, sh[j]);
      OffsetsFacts(sizes);
      var o := Offsets(sizes);
      assert o[j + 1] <= o[|sh|];
      ShuffleCategories(ShuffleRange(p, o[j], o[j + 1], sh[j]), sizes, sh, j + 1)
  }

  /** `np.arange(total)` maps every range onto itself. */
  lemma IdentitySegmented(sizes: seq<nat>)
    ensures Segmented(Iota(0, Sum(sizes)), sizes)
  {
    OffsetsFacts(sizes);
    var o := Offsets(sizes);
    forall j | 0 <= j < |sizes|
      ensures SliceIsRange(Iota(0, Sum(sizes)), sizes, j)
    {
      assert o[j] <= o[j + 1] <= Sum(sizes);
      IotaSlice(Sum(sizes), o[j], o[j + 1]);
    }
  }

  /**
   * `pinds` as it stands when block b seats its tables: `np.arange(total)`
   * shuffled by block 0, then by block 1, ..., then by block b. It is never
   * reset, and the range of the people outside the order is never shuffled.
   */
  function BlockOrder(sizes: seq<nat>, others: nat, shuffles: seq<BlockShuffle>, b: nat): (p: seq<nat>)
    requires b < |shuffles| && ValidShuffles(shuffles, sizes)
    ensures Segmented(p, Ranges(sizes, others))
    ensures forall i :: Sum(sizes) <= i < |p| ==> p[i] == i
    decreases b
  {
    var ranges := Ranges(sizes, others);
    var prev := if b == 0 then (IdentitySegmented(ranges); Iota(0, Sum(ranges))) else BlockOrder(sizes, others, shuffles, b - 1);
    RangesShuffle(shuffles[b], sizes, others);
    assert Offsets(ranges)[|shuffles[b]|] == Sum(sizes);
    ShuffleCategories(prev, ranges, shuffles[b], 0)
  }

  /** Every block's `pinds` is a permutation of 0..total-1. */
  lemma BlockOrderPermutation(sizes: seq<nat>, others: nat, shuffles: seq<BlockShuffle>, b: nat, total: nat)
    requires b < |shuffles| && ValidShuffles(shuffles, sizes)
    requires total == Sum(sizes) + others
    ensures IsPermutation(BlockOrder(sizes, others, shuffles, b), total)
  {
    var ranges := Ranges(sizes, others);
    SegmentedIsPermutation(BlockOrder(sizes, others, shuffles, b), ranges);
    assert Sum(ranges) == total;
  }

  lemma {:induction false} SegmentedPrefix(p: seq<nat>, sizes: seq<nat>, n: nat)
    requires Segmented(p, sizes) && n <= |sizes|
    ensures Offsets(sizes)[n] <= |p|
    ensures multiset(p[..Offsets(sizes)[n]]) == multiset(Iota(0, Offsets(sizes)[n]))
  {
    OffsetsFacts(sizes);
    var o := Offsets(sizes);
    if n > 0 {
      SegmentedPrefix(p, sizes, n - 1);
      assert SliceIsRange(p, sizes, n - 1);
      assert p[..o[n]] == p[..o[n - 1]] + p[o[n - 1]..o[n]];
      IotaSplit(0, o[n - 1], o[n]);
    }
  }

  /** A segmented `pinds` is a permutation of 0..total-1. */
  lemma SegmentedIsPermutation(p: seq<nat>, sizes: seq<nat>)
    requires Segmented(p, sizes)
    ensures IsPermutation(p, Sum(sizes))
  {
    OffsetsFacts(sizes);
    SegmentedPrefix(p, sizes, |sizes|);
    assert p[..Offsets(sizes)[|sizes|]] == p;
  }

  /** A segmented `pinds` sends every index of category j's range into that range. */
  lemma SegmentedMapsInto(p: seq<nat>, sizes: seq<nat>)
    requires Segmented(p, sizes)
    ensures forall j: nat, i: nat :: InRange(sizes, j, i) ==> i < |p| && InRange(sizes, j, p[i])
  {
    OffsetsFacts(sizes);
    var o := Offsets(sizes);
    forall j: nat, i: nat | InRange(sizes, j, i)
      ensures i < |p| && InRange(sizes, j, p[i])
    {
      assert SliceIsRange(p, sizes, j);
      var slice := p[o[j]..o[j + 1]];
      assert p[i] == slice[i - o[j]];
      assert p[i] in multiset(slice);
      IotaMembers(o[j], o[j + 1]);
    }
  }

  /** Every index of category j's range is the image of some index of that range. */
  lemma SegmentedMapsOnto(p: seq<nat>, sizes: seq<nat>)
    requires Segmented(p, sizes)
    ensures forall j: nat, v: nat :: InRange(sizes, j, v) ==> exists i: nat :: InRange(sizes, j, i) && i < |p| && p[i] == v
  {
    OffsetsFacts(sizes);
    var o := Offsets(sizes);
    forall j: nat, v: nat | InRange(sizes, j, v)
      ensures exists i: nat :: InRange(sizes, j, i) && i < |p| && p[i] == v
    {
      assert SliceIsRange(p, sizes, j);
      var slice := p[o[j]..o[j + 1]];
      IotaMembers(o[j], o[j + 1]);
      assert v in Iota(o[j], o[j + 1]);
      assert v in multiset(Iota(o[j], o[j + 1]));
      assert v in multiset(slice);
      var k :| 0 <= k < |slice| && slice[k] == v;
      assert InRange(sizes, j, o[j] + k);
    }
  }
}
