/** Facts about sums over milestones, used by the contract's loops and by the money theorems. */
module EscrowSums {
  import opened Ledger
  import opened EscrowSpec

  /** Changing one milestone changes a total by the difference of the two entries. */
  lemma {:induction false} TotalAfterUpdate(k: Column, ms: seq<Milestone>, idx: nat, m: Milestone)
    requires idx < |ms|
    ensures Total(k, ms[idx := m]) == Total(k, ms) - Entry(k, ms[idx]) + Entry(k, m)
  {
    var n := |ms| - 1;
    if idx < n {
      assert ms[idx := m][..n] == ms[..n][idx := m];
      TotalAfterUpdate(k, ms[..n], idx, m);
    } else {
      assert ms[idx := m][..n] == ms[..n];
    }
  }

  lemma {:induction false} PaidPlusOwed(ms: seq<Milestone>)
    ensures Total(Paid, ms) + Total(Owed, ms) == Total(Amounts, ms)
  {
    if ms != [] { PaidPlusOwed(ms[..|ms| - 1]); }
  }

  lemma {:induction false} OwedBounds(ms: seq<Milestone>)
    requires forall m <- ms :: m.amount > 0
    ensures Total(Owed, ms) >= 0 && Total(Paid, ms) >= 0
    ensures Total(Owed, ms) == 0 <==> AllApproved(ms)
    ensures Total(Paid, ms) == 0 <==> NoneApproved(ms)
  {
    if ms != [] {
      var n := |ms| - 1;
      assert ms == ms[..n] + [ms[n]];
      OwedBounds(ms[..n]);
    }
  }

  /** The part approved so far never exceeds the whole. */
  lemma {:induction false} PartBelowWhole(ms: seq<Milestone>, i: nat)
    requires i <= |ms| && forall m <- ms :: m.amount > 0
    ensures 0 <= Total(Paid, ms[..i]) <= Total(Amounts, ms)
  {
    PaidPlusOwed(ms[..i]);
    OwedBounds(ms[..i]);
    PrefixBelowWhole(ms, i);
  }

  lemma {:induction false} PrefixBelowWhole(ms: seq<Milestone>, i: nat)
    requires i <= |ms| && forall m <- ms :: m.amount > 0
    ensures Total(Amounts, ms[..i]) <= Total(Amounts, ms)
  {
    var n := |ms| - 1;
    if i == |ms| {
      assert ms[..i] == ms;
    } else {
      PrefixBelowWhole(ms[..n], i);
      assert ms[..n][..i] == ms[..i];
    }
  }

  /** A bad milestone at `i` settles how `create` fails, whatever follows. */
  lemma {:induction false} CheckedTotalStops(ms: seq<Milestone>, i: nat)
    requires i < |ms| && !CheckedTotal(ms[..i + 1]).Sum?
    ensures CheckedTotal(ms) == CheckedTotal(ms[..i + 1])
  {
    var n := |ms| - 1;
    if i == n {
      assert ms[..i + 1] == ms;
    } else {
      var front := ms[..n];
      assert front[..i + 1] == ms[..i + 1];
      CheckedTotalStops(front, i);
      assert !CheckedTotal(front).Sum?;
    }
  }

  /** Progress is positive exactly while something is not approved, and at most two per milestone. */
  lemma {:induction false} ProgressBounds(ms: seq<Milestone>)
    ensures 0 <= Total(Progress, ms) <= 2 * |ms|
    ensures Total(Progress, ms) == 0 <==> AllApproved(ms)
  {
    if ms != [] {
      var n := |ms| - 1;
      assert ms == ms[..n] + [ms[n]];
      ProgressBounds(ms[..n]);
    }
  }

  /** A fee on a positive amount is the rounded-down share. */
  lemma {:induction false} FeeOfPositive(amount: int, bps: U32)
    requires amount > 0
    ensures FeeOf(amount, bps) == amount * bps / 10000 >= 0
    ensures 10000 * FeeOf(amount, bps) <= amount * bps <= 10000 * FeeOf(amount, bps) + 9999
  {
    assert amount * bps >= 0;
  }

  lemma {:induction false} DivBounds(y: int, d: int)
    requires d > 0 && y >= 0
    ensures var q := y / d; q >= 0 && q * d <= y < q * d + d
  {
    assert y == y / d * d + y % d;
  }

  /** The quotient is truncated toward zero, for either sign: never further from zero than the exact one,
      and by less than one unit. */
  lemma {:induction false} TruncatesTowardZero(x: int, d: int)
    requires d > 0
    ensures var q := TruncDiv(x, d);
      if x >= 0 then q >= 0 && q * d <= x < q * d + d else q <= 0 && -q * d <= -x < -q * d + d
    ensures TruncDiv(-x, d) == -TruncDiv(x, d)
  {
    DivBounds(if x >= 0 then x else -x, d);
  }

  lemma {:induction false} Distribute(a: int, b: int, c: int)
    ensures (a + b) * c == a * c + b * c
  {
  }

  /** The sum of truncated fees against the truncated fee of the sum. */
  lemma {:induction false} FeesAgainstWhole(ms: seq<Milestone>, bps: U32)
    requires forall m <- ms :: m.amount > 0
    ensures 0 <= 10000 * Total(Fees(bps), ms) <= Total(Paid, ms) * bps
    ensures Total(Paid, ms) * bps <= 10000 * Total(Fees(bps), ms) + 9999 * Total(PaidCount, ms)
    ensures 0 <= Total(PaidCount, ms) <= |ms|
  {
    if ms != [] {
      var n := |ms| - 1;
      FeesAgainstWhole(ms[..n], bps);
      FeeOfPositive(ms[n].amount, bps);
      Distribute(Total(Paid, ms[..n]), Entry(Paid, ms[n]), bps);
    }
  }

  lemma {:induction false} DueWhenAllApproved(k: Column, ms: seq<Milestone>)
    requires k.Due? && AllApproved(ms)
    ensures Total(k, ms) == 0
  {
    if ms != [] {
      assert ms[|ms| - 1] in ms;
      DueWhenAllApproved(k, ms[..|ms| - 1]);
    }
  }
}
