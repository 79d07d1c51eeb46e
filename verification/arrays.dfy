/**
 * Sequence builders that stand for the numpy primitives the seating engine uses:
 * `np.arange`, `[x]*n`, `np.tile`, `np.repeat`, fancy indexing `a[p]` and `np.where`,
 * together with the facts about them the rest of the model relies on.
 */
module Arrays {

  /** `np.arange(lo, hi)`: the integers lo, lo+1, ..., hi-1. */
  function Iota(lo: nat, hi: nat): (r: seq<nat>)
    requires lo <= hi
    ensures |r| == hi - lo
  {
    seq(hi - lo, k => lo + k)
  }

  /** The members of `np.arange(lo, hi)` are exactly the integers in [lo, hi). */
  lemma IotaMembers(lo: nat, hi: nat)
    requires lo <= hi
    ensures forall x: nat :: x in Iota(lo, hi) <==> lo <= x < hi
  {
    forall x: nat | lo <= x < hi
      ensures x in Iota(lo, hi)
    {
      assert Iota(lo, hi)[x - lo] == x;
    }
  }

  /** Two adjacent ranges concatenate to the range that spans both. */
  lemma IotaSplit(lo: nat, mid: nat, hi: nat)
    requires lo <= mid <= hi
    ensures Iota(lo, mid) + Iota(mid, hi) == Iota(lo, hi)
  {
  }

  /** A window of `np.arange(n)` is the range it spans. */
  lemma IotaSlice(n: nat, lo: nat, hi: nat)
    requires lo <= hi <= n
    ensures Iota(0, n)[lo..hi] == Iota(lo, hi)
  {
  }

  /** Sum of a sequence of counts, accumulated left to right. */
  function Sum(s: seq<nat>): nat
  {
    if |s| == 0 then 0 else Sum(s[..|s| - 1]) + s[|s| - 1]
  }

  lemma {:induction false} SumConcat(a: seq<nat>, b: seq<nat>)
    ensures Sum(a + b) == Sum(a) + Sum(b)
    decreases |b|
  {
    if |b| == 0 {
      assert a + b == a;
    } else {
      assert (a + b)[..|a + b| - 1] == a + b[..|b| - 1];
      SumConcat(a, b[..|b| - 1]);
    }
  }

  /** A sum of counts is zero exactly when every count is. */
  lemma {:induction false} SumZero(s: seq<nat>)
    ensures Sum(s) == 0 <==> forall i :: 0 <= i < |s| ==> s[i] == 0
  {
    if |s| > 0 {
      SumZero(s[..|s| - 1]);
      assert forall i :: 0 <= i < |s| - 1 ==> s[..|s| - 1][i] == s[i];
    }
  }

  /** `[x] * n`. */
  function Repeat<T>(x: T, n: nat): (r: seq<T>)
    ensures |r| == n
  {
    seq(n, _ => x)
  }

  /** `[x] * n` holds x exactly n times and nothing else. */
  lemma {:induction false} RepeatCount<T>(x: T, n: nat, y: T)
    ensures multiset(Repeat(x, n))[y] == if x == y then n else 0
  {
    if n > 0 {
      RepeatCount(x, n - 1, y);
      assert Repeat(x, n) == Repeat(x, n - 1) + [x];
    }
  }

  /** `np.tile(xs, reps)`: `reps` copies of `xs` one after the other. */
  function Tile<T>(xs: seq<T>, reps: nat): seq<T>
  {
    if reps == 0 then [] else Tile(xs, reps - 1) + xs
  }

  /** `np.repeat(xs, n)`: every element of `xs` repeated `n` times in place. */
  function RepeatEach<T>(xs: seq<T>, n: nat): seq<T>
  {
    if |xs| == 0 then [] else RepeatEach(xs[..|xs| - 1], n) + Repeat(xs[|xs| - 1], n)
  }

  lemma {:induction false} RepeatEachLength<T>(xs: seq<T>, n: nat)
    ensures |RepeatEach(xs, n)| == |xs| * n
  {
    if |xs| > 0 {
      RepeatEachLength(xs[..|xs| - 1], n);
      assert |xs| * n == (|xs| - 1) * n + n;
    }
  }

  /** Euclidean quotient and remainder of `q * n + k` when `0 <= k < n`. */
  lemma DivModOf(q: nat, n: nat, k: nat)
    requires k < n
    ensures (q * n + k) / n == q
    ensures (q * n + k) % n == k
  {
    var a := q * n + k;
    var d := a / n - q;
    assert d * n == k - a % n by {
      assert a == (a / n) * n + a % n;
      assert (a / n) * n == d * n + q * n;
    }
    MulSign(d, n);
  }

  lemma MulSign(d: int, n: nat)
    ensures d >= 1 ==> d * n >= n
    ensures d <= -1 ==> d * n + n <= 0
  {
    assert d * n - n == (d - 1) * n;
    assert d * n + n == (d + 1) * n;
  }

  /** A quotient is below `m` whenever the dividend is below `m * n`. */
  lemma DivBelow(j: nat, n: nat, m: nat)
    requires n > 0 && j < m * n
    ensures 0 <= j / n < m
  {
    var q := j / n;
    assert q * n <= j;
    assert q * n - m * n == (q - m) * n;
    MulSign(q - m + 1, n);
    MulSign(q, n);
  }

  lemma {:induction false} TileLength<T>(xs: seq<T>, reps: nat)
    ensures |Tile(xs, reps)| == reps * |xs|
  {
    if reps > 0 {
      TileLength(xs, reps - 1);
      assert reps * |xs| == (reps - 1) * |xs| + |xs|;
    }
  }

  /** Element j of a tiled sequence is element `j mod |xs|` of the tile. */
  lemma {:induction false} TileIndex<T>(xs: seq<T>, reps: nat)
    requires |xs| > 0
    ensures |Tile(xs, reps)| == reps * |xs|
    ensures forall j :: 0 <= j < reps * |xs| ==> Tile(xs, reps)[j] == xs[j % |xs|]
  {
    if reps > 0 {
      TileIndex(xs, reps - 1);
      var prev := Tile(xs, reps - 1);
      assert |prev| == (reps - 1) * |xs|;
      forall j | 0 <= j < reps * |xs|
        ensures Tile(xs, reps)[j] == xs[j % |xs|]
      {
        if j >= |prev| {
          DivModOf(reps - 1, |xs|, j - |prev|);
        }
      }
    }
  }

  /** Element j of `np.repeat(xs, n)` is element `j div n` of `xs`. */
  lemma {:induction false} RepeatEachIndex<T>(xs: seq<T>, n: nat)
    requires n > 0
    ensures |RepeatEach(xs, n)| == |xs| * n
    ensures forall j :: 0 <= j < |xs| * n ==> RepeatEach(xs, n)[j] == xs[j / n]
  {
    if |xs| > 0 {
      var init := xs[..|xs| - 1];
      RepeatEachIndex(init, n);
      var prev := RepeatEach(init, n);
      var last := Repeat(xs[|xs| - 1], n);
      assert RepeatEach(xs, n) == prev + last;
      assert |xs| * n == (|xs| - 1) * n + n;
      forall j | 0 <= j < |xs| * n
        ensures RepeatEach(xs, n)[j] == xs[j / n]
      {
        if j >= |prev| {
          DivModOf(|xs| - 1, n, j - |prev|);
          assert j == (|xs| - 1) * n + (j - |prev|);
          assert (prev + last)[j] == last[j - |prev|];
        } else {
          DivBelow(j, n, |xs| - 1);
          assert (prev + last)[j] == prev[j];
          assert init[j / n] == xs[j / n];
        }
      }
    }
  }

  /** Fancy indexing `s[p]`: the elements of `s` at the positions listed in `p`. */
  function Permute(s: seq<nat>, p: seq<nat>): (r: seq<nat>)
    requires forall k :: 0 <= k < |p| ==> p[k] < |s|
    ensures |r| == |p|
  {
    seq(|p|, k requires 0 <= k < |p| => s[p[k]])
  }

  /** `p` lists each index 0, ..., n-1 exactly once. */
  predicate IsPermutation(p: seq<nat>, n: nat)
  {
    multiset(p) == multiset(Iota(0, n))
  }

  /** A permutation of 0..n-1 has length n and only holds valid indices. */
  lemma PermutationBounds(p: seq<nat>, n: nat)
    requires IsPermutation(p, n)
    ensures |p| == n
    ensures forall k :: 0 <= k < |p| ==> p[k] < n
  {
    assert |multiset(p)| == |multiset(Iota(0, n))|;
    IotaMembers(0, n);
    forall k | 0 <= k < |p|
      ensures p[k] < n
    {
      assert p[k] in multiset(p);
    }
  }

  /** Dropping position m of a sequence drops one copy of its element from the multiset. */
  lemma MultisetRemoveAt<T>(q: seq<T>, m: nat)
    requires m < |q|
    ensures multiset(q) == multiset(q[..m] + q[m + 1..]) + multiset{q[m]}
  {
    assert q == q[..m] + [q[m]] + q[m + 1..];
  }

  /** Adding the same element to two multisets keeps them equal only if they were. */
  lemma MultisetCancel<T>(a: multiset<T>, b: multiset<T>, x: T)
    requires a + multiset{x} == b + multiset{x}
    ensures a == b
  {
    forall y
      ensures a[y] == b[y]
    {
      assert (a + multiset{x})[y] == (b + multiset{x})[y];
    }
  }

  /** Picking with two index lists that hold the same indices gives the same multiset of values. */
  lemma {:induction false} PermuteMultiset(s: seq<nat>, p: seq<nat>, q: seq<nat>)
    requires forall k :: 0 <= k < |p| ==> p[k] < |s|
    requires forall k :: 0 <= k < |q| ==> q[k] < |s|
    requires multiset(p) == multiset(q)
    ensures multiset(Permute(s, p)) == multiset(Permute(s, q))
    decreases |p|
  {
    if |p| == 0 {
      assert |multiset(q)| == 0;
    } else {
      var init := p[..|p| - 1];
      var x := p[|p| - 1];
      assert x in multiset(q);
      var m :| 0 <= m < |q| && q[m] == x;
      var rest := q[..m] + q[m + 1..];
      MultisetRemoveAt(q, m);
      assert p == init + [x];
      MultisetCancel(multiset(init), multiset(rest), x);
      PermuteMultiset(s, init, rest);
      var picked := Permute(s, q);
      assert Permute(s, p) == Permute(s, init) + [s[x]];
      assert Permute(s, rest) == picked[..m] + picked[m + 1..];
      MultisetRemoveAt(picked, m);
    }
  }

  /** Reordering a sequence by a permutation of its positions keeps its multiset. */
  lemma PermutationPreservesMultiset(s: seq<nat>, p: seq<nat>)
    requires IsPermutation(p, |s|)
    ensures forall k :: 0 <= k < |p| ==> p[k] < |s|
    ensures multiset(Permute(s, p)) == multiset(s)
  {
    PermutationBounds(p, |s|);
    var id := Iota(0, |s|);
    PermuteMultiset(s, p, id);
    assert Permute(s, id) == s;
  }

  /** `np.where(col == t)[0]` over the first `n` positions: the matching indices, ascending. */
  function WhereBelow(col: seq<int>, t: int, n: nat): (w: seq<nat>)
    requires n <= |col|
    ensures forall k :: 0 <= k < |w| ==> w[k] < n
    ensures forall k, l :: 0 <= k < l < |w| ==> w[k] < w[l]
    ensures forall i :: 0 <= i < n ==> (col[i] == t <==> i in w)
  {
    if n == 0 then []
    else WhereBelow(col, t, n - 1) + (if col[n - 1] == t then [n - 1] else [])
  }

  /** `np.where(col == t)[0]`: every index whose entry is `t`, in ascending order. */
  function Where(col: seq<int>, t: int): seq<nat>
  {
    WhereBelow(col, t, |col|)
  }

  /** No element occurs twice. */
  predicate Distinct<T(==)>(s: seq<T>)
  {
    forall i, j :: 0 <= i < j < |s| ==> s[i] != s[j]
  }

  /** The set of elements of a sequence. */
  function Elems<T>(s: seq<T>): set<T>
  {
    set x | x in s
  }
}
