/**
 * Counting how many participant positions land on one table. Table numbers
 * come from `(pinds[i] mod Ngroup) + 1`, so the number of people at table
 * r + 1 is the number of values with remainder r; over any run of consecutive
 * values that number is the floor or the ceiling of the run's length over Ngroup.
 */
module Balance {
  import opened Arrays

  /** How many values of `s` leave remainder r modulo n. */
  function CountResidue(s: seq<nat>, n: nat, r: nat): nat
    requires n > 0
  {
    if |s| == 0 then 0
    else CountResidue(s[..|s| - 1], n, r) + (if s[|s| - 1] % n == r then 1 else 0)
  }

  lemma {:induction false} CountResidueConcat(a: seq<nat>, b: seq<nat>, n: nat, r: nat)
    requires n > 0
    ensures CountResidue(a + b, n, r) == CountResidue(a, n, r) + CountResidue(b, n, r)
    decreases |b|
  {
    if |b| == 0 {
      assert a + b == a;
    } else {
      assert (a + b)[..|a + b| - 1] == a + b[..|b| - 1];
      CountResidueConcat(a, b[..|b| - 1], n, r);
    }
  }

  /** The count depends only on which values occur, not on their order. */
  lemma {:induction false} CountResidueMultiset(a: seq<nat>, b: seq<nat>, n: nat, r: nat)
    requires n > 0
    requires multiset(a) == multiset(b)
    ensures CountResidue(a, n, r) == CountResidue(b, n, r)
    decreases |a|
  {
    if |a| == 0 {
      assert |multiset(b)| == 0;
    } else {
      var init := a[..|a| - 1];
      var x := a[|a| - 1];
      assert x in multiset(b);
      var m :| 0 <= m < |b| && b[m] == x;
      var rest := b[..m] + b[m + 1..];
      MultisetRemoveAt(b, m);
      assert a == init + [x];
      var mi: multiset<nat>, mr: multiset<nat>, mx: multiset<nat> := multiset(init), multiset(rest), multiset{x};
      assert mi + mx == mr + mx;
      forall y: nat
        ensures mi[y] == mr[y]
      {
        assert (mi + mx)[y] == (mr + mx)[y];
      }
      assert mi == mr;
      CountResidueMultiset(init, rest, n, r);
      assert b == b[..m] + [x] + b[m + 1..];
      CountResidueConcat(b[..m] + [x], b[m + 1..], n, r);
      CountResidueConcat(b[..m], [x], n, r);
      CountResidueConcat(b[..m], b[m + 1..], n, r);
      assert [x][..0] == [];
    }
  }

  /** Among 0..c-1 with c <= n, exactly r itself has remainder r, if r < c. */
  lemma {:induction false} IotaPrefixResidue(c: nat, n: nat, r: nat)
    requires r < n && c <= n
    ensures CountResidue(Iota(0, c), n, r) == if r < c then 1 else 0
  {
    if c > 0 {
      IotaPrefixResidue(c - 1, n, r);
      assert Iota(0, c)[..c - 1] == Iota(0, c - 1);
      assert Iota(0, c)[c - 1] == c - 1;
      DivModOf(0, n, c - 1);
    }
  }

  lemma CountResidueSingle(x: nat, n: nat, r: nat)
    requires n > 0
    ensures CountResidue([x], n, r) == if x % n == r then 1 else 0
  {
    assert [x][..0] == [];
  }

  lemma ModShift(x: nat, n: nat)
    requires n > 0
    ensures (x + n) % n == x % n
  {
    assert x == (x / n) * n + x % n;
    assert x + n == (x / n + 1) * n + x % n;
    DivModOf(x / n + 1, n, x % n);
  }

  /** Any n consecutive values contain exactly one with remainder r. */
  lemma {:induction false} IotaWindow(lo: nat, n: nat, r: nat)
    requires r < n
    ensures CountResidue(Iota(lo, lo + n), n, r) == 1
    decreases lo
  {
    if lo == 0 {
      IotaPrefixResidue(n, n, r);
    } else {
      var a := lo - 1;
      IotaWindow(a, n, r);
      var mid := Iota(lo, a + n);
      assert Iota(a, a + n) == [a] + mid by { IotaSplit(a, lo, a + n); }
      assert Iota(lo, lo + n) == mid + [a + n] by { IotaSplit(lo, a + n, lo + n); }
      CountResidueConcat([a], mid, n, r);
      CountResidueConcat(mid, [a + n], n, r);
      CountResidueSingle(a, n, r);
      CountResidueSingle(a + n, n, r);
      ModShift(a, n);
    }
  }

  /**
   * Among the c = hi - lo consecutive values lo..hi-1, the number with
   * remainder r is floor(c / n) or ceil(c / n).
   */
  lemma {:induction false} IotaResidueBounds(lo: nat, hi: nat, n: nat, r: nat)
    requires lo <= hi && r < n
    ensures (hi - lo) / n <= CountResidue(Iota(lo, hi), n, r) <= (hi - lo + n - 1) / n
    decreases hi - lo
  {
    if hi - lo >= n {
      IotaResidueBounds(lo + n, hi, n, r);
      IotaSplit(lo, lo + n, hi);
      CountResidueConcat(Iota(lo, lo + n), Iota(lo + n, hi), n, r);
      IotaWindow(lo, n, r);
      StepBounds(hi - lo, n, CountResidue(Iota(lo + n, hi), n, r));
    } else {
      IotaSplit(lo, hi, lo + n);
      CountResidueConcat(Iota(lo, hi), Iota(hi, lo + n), n, r);
      IotaWindow(lo, n, r);
      ShortBounds(hi - lo, n, CountResidue(Iota(lo, hi), n, r));
    }
  }

  /** One full round of n values adds exactly one to both bounds. */
  lemma StepBounds(c: nat, n: nat, k: nat)
    requires n > 0 && c >= n
    requires (c - n) / n <= k <= (c - 1) / n
    ensures c / n <= k + 1 <= (c + n - 1) / n
  {
    DivStep(c - n, n);
    DivStep(c - 1, n);
  }

  /** Fewer than n values: floor is 0, and the ceiling is 1 unless there are none. */
  lemma ShortBounds(c: nat, n: nat, k: nat)
    requires c < n && k <= 1
    requires c == 0 ==> k == 0
    ensures c / n <= k <= (c + n - 1) / n
  {
    DivModOf(0, n, c);
    if c > 0 {
      DivModOf(1, n, c - 1);
    } else {
      DivModOf(0, n, n - 1);
    }
  }

  lemma DivStep(x: nat, n: nat)
    requires n > 0
    ensures (x + n) / n == x / n + 1
  {
    assert x == (x / n) * n + x % n;
    assert x + n == (x / n + 1) * n + x % n;
    DivModOf(x / n + 1, n, x % n);
  }

  /** x is the floor or the ceiling of total / n: an even share of total things among n places. */
  predicate FairShare(x: int, total: nat, n: nat)
  {
    n > 0 && total / n <= x <= (total + n - 1) / n
  }

  /** When n * chairs seats hold everyone, no remainder class outgrows a table: ceil(total / n) <= chairs. */
  lemma CeilBelow(total: nat, n: nat, chairs: nat)
    requires n > 0 && total <= n * chairs
    ensures (total + n - 1) / n <= chairs
  {
    assert (chairs + 1) * n == n * chairs + n;
    DivBelow(total + n - 1, n, chairs + 1);
  }

  /** The ceiling of x / n exceeds the floor by at most one. */
  lemma CeilFloor(x: nat, n: nat)
    requires n > 0
    ensures x / n <= (x + n - 1) / n <= x / n + 1
  {
    var q := x / n;
    assert x == q * n + x % n;
    assert (q + 2) * n == q * n + n + n;
    DivBelow(x + n - 1, n, q + 2);
    var d := (x + n - 1) / n;
    assert x + n - 1 == d * n + (x + n - 1) % n;
    assert (q - d) * n == q * n - d * n;
    MulSign(q - d, n);
  }
}
