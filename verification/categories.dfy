/**
 * The participant list of `gen_groups`: categories taken in the declared order,
 * each contributing as many consecutive participant indices as its headcount.
 * Category j therefore owns the index range [Offsets(sizes)[j], Offsets(sizes)[j + 1]).
 */
module Categories {
  import opened Arrays
  import opened Dicts

  /** Where each category's index range starts: the sum of the earlier headcounts. */
  function Offsets(sizes: seq<nat>): (o: seq<nat>)
    ensures |o| == |sizes| + 1
  {
    seq(|sizes| + 1, j requires 0 <= j <= |sizes| => Sum(sizes[..j]))
  }

  /**
   * The ranges start at 0, each is as long as its category's headcount, they
   * never go backwards, and the last one ends at the total headcount.
   */
  lemma OffsetsFacts(sizes: seq<nat>)
    ensures Offsets(sizes)[0] == 0
    ensures Offsets(sizes)[|sizes|] == Sum(sizes)
    ensures forall j :: 0 <= j < |sizes| ==> Offsets(sizes)[j + 1] == Offsets(sizes)[j] + sizes[j]
    ensures forall j, k :: 0 <= j <= k <= |sizes| ==> Offsets(sizes)[j] <= Offsets(sizes)[k]
  {
    assert sizes[..|sizes|] == sizes;
    forall j | 0 <= j < |sizes|
      ensures Offsets(sizes)[j + 1] == Offsets(sizes)[j] + sizes[j]
    {
      OffsetStep(sizes, j);
    }
    forall j, k | 0 <= j <= k <= |sizes|
      ensures Offsets(sizes)[j] <= Offsets(sizes)[k]
    {
      OffsetsMonotone(sizes, j, k);
    }
  }

  lemma OffsetStep(sizes: seq<nat>, j: nat)
    requires j < |sizes|
    ensures Sum(sizes[..j + 1]) == Sum(sizes[..j]) + sizes[j]
  {
    assert sizes[..j + 1][..j] == sizes[..j];
  }

  lemma OffsetsMonotone(sizes: seq<nat>, j: nat, k: nat)
    requires j <= k <= |sizes|
    ensures Sum(sizes[..j]) <= Sum(sizes[..k])
  {
    assert sizes[..k] == sizes[..j] + sizes[j..k];
    SumConcat(sizes[..j], sizes[j..k]);
  }

  /** Participant index i lies in category j's range. */
  predicate InRange(sizes: seq<nat>, j: nat, i: nat)
  {
    j < |sizes| && Offsets(sizes)[j] <= i < Offsets(sizes)[j + 1]
  }

  /** The ranges of a prefix of the categories are those of the full list. */
  lemma OffsetsPrefix(sizes: seq<nat>, n: nat)
    requires n <= |sizes|
    ensures forall j :: 0 <= j <= n ==> Offsets(sizes[..n])[j] == Offsets(sizes)[j]
  {
    assert forall j :: 0 <= j <= n ==> sizes[..n][..j] == sizes[..j];
  }

  /**
   * `participant_list`: for each category of `order`, `[k] * rsvpdict[k]`
   * appended in turn.
   */
  function Participants(order: seq<Key>, sizes: seq<nat>): (p: seq<Key>)
    requires |order| == |sizes|
    ensures |p| == Sum(sizes)
    decreases |sizes|
  {
    if |sizes| == 0 then []
    else
      var n := |sizes| - 1;
      assert sizes[..n + 1] == sizes;
      Participants(order[..n], sizes[..n]) + Repeat(order[n], sizes[n])
  }

  /** Every index of category j's range carries the label `order[j]`. */
  lemma {:induction false} ParticipantsLabels(order: seq<Key>, sizes: seq<nat>)
    requires |order| == |sizes|
    ensures forall j: nat, i: nat :: InRange(sizes, j, i) ==>
      i < |Participants(order, sizes)| && Participants(order, sizes)[i] == order[j]
    decreases |sizes|
  {
    OffsetsFacts(sizes);
    if |sizes| > 0 {
      var n := |sizes| - 1;
      var prev := Participants(order[..n], sizes[..n]);
      var p := Participants(order, sizes);
      assert p == prev + Repeat(order[n], sizes[n]);
      ParticipantsLabels(order[..n], sizes[..n]);
      OffsetsPrefix(sizes, n);
      OffsetsFacts(sizes[..n]);
      forall j: nat, i: nat | InRange(sizes, j, i)
        ensures i < |p| && p[i] == order[j]
      {
        if j < n {
          assert InRange(sizes[..n], j, i);
          assert Offsets(sizes)[j + 1] <= Offsets(sizes)[n];
          assert p[i] == prev[i];
        }
      }
    }
  }

  /** The category whose range contains participant index i. */
  function RangeOf(sizes: seq<nat>, i: nat): (j: nat)
    requires i < Sum(sizes)
    ensures InRange(sizes, j, i)
    decreases |sizes|
  {
    var n := |sizes| - 1;
    assert sizes[..n + 1] == sizes;
    OffsetsPrefix(sizes, n);
    OffsetsFacts(sizes);
    if i >= Sum(sizes[..n]) then n else RangeOf(sizes[..n], i)
  }

  /** The category ranges are pairwise disjoint: an index lies in at most one. */
  lemma RangeUnique(sizes: seq<nat>, i: nat, j: nat, k: nat)
    requires InRange(sizes, j, i) && InRange(sizes, k, i)
    ensures j == k
  {
    OffsetsFacts(sizes);
  }

  /**
   * The category ranges partition the participant indices, and with distinct
   * category labels, participant i has label `order[j]` exactly when i lies
   * in category j's range.
   * Stands in for ParticipantsPartition without its coverage clause, which
   * makes the counting proofs that call this lemma too costly.
   */
  lemma ParticipantsInRange(order: seq<Key>, sizes: seq<nat>)
    requires |order| == |sizes| && Distinct(order)
    ensures forall i: nat, j: nat, k: nat :: InRange(sizes, j, i) && InRange(sizes, k, i) ==> j == k
    ensures forall j: nat, i: nat :: j < |order| && i < Sum(sizes) ==>
      (Participants(order, sizes)[i] == order[j] <==> InRange(sizes, j, i))
  {
    ParticipantsLabels(order, sizes);
    forall i: nat, j: nat, k: nat | InRange(sizes, j, i) && InRange(sizes, k, i)
      ensures j == k
    {
      RangeUnique(sizes, i, j, k);
    }
    forall j: nat, i: nat | j < |order| && i < Sum(sizes) && Participants(order, sizes)[i] == order[j]
      ensures InRange(sizes, j, i)
    {
      var k := RangeOf(sizes, i);
      assert Participants(order, sizes)[i] == order[k];
    }
  }

  /**
   * The category ranges partition the indices below the listed total: every
   * such index lies in exactly one range, and its label names that range.
   */
  lemma ParticipantsPartition(order: seq<Key>, sizes: seq<nat>)
    requires |order| == |sizes| && Distinct(order)
    ensures forall i: nat :: i < Sum(sizes) ==> InRange(sizes, RangeOf(sizes, i), i)
    ensures forall i: nat, j: nat, k: nat :: InRange(sizes, j, i) && InRange(sizes, k, i) ==> j == k
    ensures forall j: nat, i: nat :: j < |order| && i < Sum(sizes) ==>
      (Participants(order, sizes)[i] == order[j] <==> InRange(sizes, j, i))
  {
    ParticipantsInRange(order, sizes);
  }

  /**
   * With distinct labels, `participant_list` holds label `order[j]` exactly
   * `sizes[j]` times and no label outside `order`.
   */
  lemma {:induction false} ParticipantsCount(order: seq<Key>, sizes: seq<nat>)
    requires |order| == |sizes| && Distinct(order)
    ensures forall j :: 0 <= j < |order| ==> multiset(Participants(order, sizes))[order[j]] == sizes[j]
    ensures forall k :: k !in order ==> multiset(Participants(order, sizes))[k] == 0
    decreases |sizes|
  {
    if |sizes| > 0 {
      var n := |sizes| - 1;
      var prev := Participants(order[..n], sizes[..n]);
      ParticipantsCount(order[..n], sizes[..n]);
      assert Participants(order, sizes) == prev + Repeat(order[n], sizes[n]);
      forall k
        ensures multiset(Participants(order, sizes))[k] == multiset(prev)[k] + (if order[n] == k then sizes[n] else 0)
      {
        RepeatCount(order[n], sizes[n], k);
      }
      forall j | 0 <= j < |order|
        ensures multiset(Participants(order, sizes))[order[j]] == sizes[j]
      {
        if j < n {
          assert order[j] == order[..n][j];
        } else {
          assert order[n] !in order[..n];
        }
      }
      forall k | k !in order
        ensures multiset(Participants(order, sizes))[k] == 0
      {
        assert k !in order[..n];
      }
    }
  }

  /** With distinct labels, every participant of an earlier category comes before every one of a later category. */
  lemma ParticipantsOrdered(order: seq<Key>, sizes: seq<nat>)
    requires |order| == |sizes| && Distinct(order)
    ensures var p := Participants(order, sizes);
      forall i, i', j, j' ::
        0 <= i < |p| && 0 <= i' < |p| && 0 <= j < j' < |order| && p[i] == order[j] && p[i'] == order[j'] ==> i < i'
  {
    var p := Participants(order, sizes);
    ParticipantsInRange(order, sizes);
    OffsetsFacts(sizes);
    forall i, i', j, j' | 0 <= i < |p| && 0 <= i' < |p| && 0 <= j < j' < |order| && p[i] == order[j] && p[i'] == order[j']
      ensures i < i'
    {
      assert InRange(sizes, j, i) && InRange(sizes, j', i');
    }
  }

  /** Every participant carries a label of `order`. */
  lemma ParticipantsLabelled(order: seq<Key>, sizes: seq<nat>)
    requires |order| == |sizes|
    ensures forall i :: 0 <= i < |Participants(order, sizes)| ==> Participants(order, sizes)[i] in order
  {
    ParticipantsLabels(order, sizes);
    forall i | 0 <= i < |Participants(order, sizes)|
      ensures Participants(order, sizes)[i] in order
    {
      var j := RangeOf(sizes, i);
    }
  }
}
