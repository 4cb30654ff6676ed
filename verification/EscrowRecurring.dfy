/** The money of recurring releases, all of the same amount: what they take from the vault, and what
    that does to `cancel` and `expire`, which add the released part to the refund. */
module EscrowRecurring {
  import opened Ledger
  import opened EscrowSpec
  import opened EscrowSums
  import opened EscrowMoney
  import opened EscrowSettlement
  import opened EscrowClosedWorld
  import opened EscrowHistory
  import opened EscrowAnswers
  import opened EscrowPreapproved

  /** Every call of the run sees the same positive amount per release. */
  predicate Uniform(run: seq<Step>, amount: I128) { amount > 0 && forall s <- run :: s.env.unitAmount == amount }

  /** A successful release takes exactly its amount out of what is unpaid. */
  lemma {:induction false} ReleaseTakes(w: World, s: Step)
    requires WellFormed(w) && s.call.CallReleaseRecurring? && Apply(w, s).outcome.Ok? && s.env.unitAmount > 0
    ensures Next(w, s).escrow.Some? && Unpaid(Next(w, s)) == Unpaid(w) - s.env.unitAmount
  {
    var t := w.escrow.value.token;
    OutgoingStep(w, s, t, Fee);
    OutgoingStep(w, s, t, Payout);
    MovedByMoves(w, s, Labelled(t, Fee));
    MovedByMoves(w, s, Labelled(t, Payout));
    SplitOfPositive(w.config, s.env.unitAmount);
  }

  /** `k` releases of one amount. */
  function Released(amount: int, k: nat): int { if k == 0 then 0 else Released(amount, k - 1) + amount }

  lemma {:induction false} ReleasedIsAProduct(amount: int, k: nat)
    ensures Released(amount, k) == amount * k
  {
    if k > 0 {
      ReleasedIsAProduct(amount, k - 1);
      Distribute(k - 1, 1, amount);
    }
  }

  /** `n` has made `k` more releases than `w`, and as many amounts less are unpaid. */
  ghost predicate Took(w: World, n: World, amount: int, k: nat) {
    && w.escrow.Some? && n.escrow.Some? && WellFormed(n)
    && n.escrow.value.releasesMade == w.escrow.value.releasesMade + k
    && Unpaid(n) == Unpaid(w) - Released(amount, k)
  }

  /** One call makes at most one release more. */
  lemma {:induction false} TookStep(w: World, y: World, s: Step, k: nat) returns (more: nat)
    requires Took(w, y, s.env.unitAmount, k) && s.env.unitAmount > 0
    ensures Took(w, Next(y, s), s.env.unitAmount, more)
  {
    WellFormedStep(y, s);
    UnpaidStep(y, s);
    FieldsStep(y, s);
    if s.call.CallReleaseRecurring? && Apply(y, s).outcome.Ok? {
      ReleaseTakes(y, s);
      more := k + 1;
    } else {
      more := k;
    }
  }

  /** What is unpaid after a run: what was, less the amount for each release made. */
  lemma {:induction false} UnpaidAfterReleases(w: World, run: seq<Step>, amount: I128) returns (k: nat)
    requires WellFormed(w) && w.escrow.Some? && Uniform(run, amount)
    ensures Took(w, Run(w, run), amount, k)
  {
    if run == [] {
      k := 0;
    } else {
      var n := |run| - 1;
      assert run[n] in run;
      k := UnpaidAfterReleases(w, run[..n], amount);
      k := TookStep(w, Run(w, run[..n]), run[n], k);
    }
  }

  /** Nothing is refunded as long as the escrow is active. */
  lemma {:induction false} UnrefundedWhileActive(w: World, run: seq<Step>)
    requires WellFormed(w) && w.escrow.Some?
    ensures var d, z := w.escrow.value, Run(w, run);
      && WellFormed(z) && z.escrow.Some? && z.escrow.value.token == d.token
      && (z.escrow.value.status == Active ==>
            d.status == Active && MovedAs(z, d.token, Refund) == MovedAs(w, d.token, Refund))
  {
    if run != [] {
      var n := |run| - 1;
      UnrefundedWhileActive(w, run[..n]);
      WellFormedStep(Run(w, run[..n]), run[n]);
      UnpaidStep(Run(w, run[..n]), run[n]);
    }
  }

  /** What the vault holds beyond the deposit that still has an owner. */
  function Surplus(start: World, w: World, given: seq<Milestone>): int
    requires w.escrow.Some?
  {
    var t := w.escrow.value.token;
    Total(Paid, given) + Balance(start.bank, t, start.self) + Moved(w.bank.log, Gift(t, start.self))
  }

  /** The account of a recurring escrow, in any world: while it is active the vault holds the unapproved
      amounts and the surplus, less the amount for each release made. */
  lemma {:induction false} RecurringAccount(start: World, before: seq<Step>, s: Step, after: seq<Step>, amount: I128)
    requires Deployed(start) && Unsigned(start.self, before + [s] + after) && Uniform(after, amount)
    requires Run(start, before).escrow.None? && Next(Run(start, before), s).escrow.Some?
    ensures s.call.CallCreate?
    ensures var z := Run(start, before + [s] + after);
      && z.escrow.Some? && z.self == start.self && WellFormed(z)
      && var d := z.escrow.value;
      && Balance(z.bank, d.token, z.self) + MovedAs(z, d.token, Refund)
           == Total(Owed, d.milestones) + Surplus(start, z, s.call.milestones) - amount * d.releasesMade
      && (d.status == Active ==> MovedAs(z, d.token, Refund) == 0)
  {
    var w := Next(Run(start, before), s);
    JustCreated(start, before, s);
    RunSnoc(start, before, s);
    RunConcat(start, before + [s], after);
    var k := UnpaidAfterReleases(w, after, amount);
    ReleasedIsAProduct(amount, k);
    UnrefundedWhileActive(w, after);
    VaultAccount(start, before + [s] + after);
  }

  lemma {:induction false} JustCreated(start: World, before: seq<Step>, s: Step)
    requires Deployed(start) && Run(start, before).escrow.None? && Next(Run(start, before), s).escrow.Some?
    ensures s.call.CallCreate?
    ensures var w := Next(Run(start, before), s);
      && WellFormed(w) && w.escrow.value.token == s.call.token && w.escrow.value.releasesMade == 0
      && Unpaid(w) == Total(Paid, s.call.milestones) && MovedAs(w, s.call.token, Refund) == 0
  {
    TrackedAlways(start, before);
    UnpaidAtCreation(Run(start, before), s);
    WellFormedStep(Run(start, before), s);
    FieldsStep(Run(start, before), s);
  }

  lemma {:induction false} ClosingOutOfSurplus(z: World, last: Step, surplus: int)
    requires WellFormed(z) && z.escrow.Some? && (last.call.CallCancel? || last.call.CallExpire?)
    requires last.env.unitAmount > 0
    requires var d := z.escrow.value; var released := last.env.unitAmount * d.releasesMade;
      d.status == Active ==>
        Balance(z.bank, d.token, z.self) == Total(Owed, d.milestones) + surplus - released
    ensures var d := z.escrow.value; var released := last.env.unitAmount * d.releasesMade;
      Apply(z, last).outcome.Ok? <==>
        && !IsPaused(z) && d.status == Active && d.payer in last.env.signers
        && (last.call.CallExpire? ==> d.deadline.Some? && last.env.now > d.deadline.value)
        && Total(Owed, d.milestones) + released <= I128_MAX
        && 2 * released <= surplus
  {
    OwedBounds(z.escrow.value.milestones);
    assert last.env.unitAmount * z.escrow.value.releasesMade >= 0;
    ClosingIff(z, last);
  }

  /** When an active recurring escrow can be closed, in any world: the refund asks for the released part a
      second time, so twice that part must be there as surplus. */
  lemma {:induction false} RecurringClosingIff(start: World, before: seq<Step>, s: Step, after: seq<Step>,
                                               amount: I128, last: Step)
    requires Deployed(start) && Unsigned(start.self, before + [s] + after) && Uniform(after + [last], amount)
    requires Run(start, before).escrow.None? && Next(Run(start, before), s).escrow.Some?
    requires last.call.CallCancel? || last.call.CallExpire?
    ensures s.call.CallCreate?
    ensures var z := Run(start, before + [s] + after);
      && z.escrow.Some?
      && var d := z.escrow.value; var released := amount * d.releasesMade;
      Apply(z, last).outcome.Ok? <==>
        && !IsPaused(z) && d.status == Active && d.payer in last.env.signers
        && (last.call.CallExpire? ==> d.deadline.Some? && last.env.now > d.deadline.value)
        && Total(Owed, d.milestones) + released <= I128_MAX
        && 2 * released <= Surplus(start, z, s.call.milestones)
  {
    assert forall r <- after :: r in after + [last];
    assert last in after + [last];
    RecurringAccount(start, before, s, after, amount);
    var z := Run(start, before + [s] + after);
    ClosingOutOfSurplus(z, last, Surplus(start, z, s.call.milestones));
  }

  /** So in the closed world an escrow that has made a release can never be cancelled or expired again. */
  lemma {:induction false} ReleasedNeverRefunds(start: World, before: seq<Step>, s: Step, after: seq<Step>,
                                               amount: I128, last: Step)
    requires ClosedWorld(start, before + [s] + after) && Uniform(after + [last], amount)
    requires Run(start, before).escrow.None? && Next(Run(start, before), s).escrow.Some?
    requires last.call.CallCancel? || last.call.CallExpire?
    ensures var z := Run(start, before + [s] + after);
      z.escrow.Some? && (z.escrow.value.releasesMade > 0 ==> !Apply(z, last).outcome.Ok?)
  {
    var z := Run(start, before + [s] + after);
    RecurringClosingIff(start, before, s, after, amount, last);
    NoSurplus(start, before, s, after);
    if z.escrow.value.releasesMade > 0 { assert amount * z.escrow.value.releasesMade > 0; }
  }

  lemma {:induction false} NoSurplus(start: World, before: seq<Step>, s: Step, after: seq<Step>)
    requires ClosedWorld(start, before + [s] + after)
    requires Run(start, before).escrow.None? && Next(Run(start, before), s).escrow.Some?
    requires Run(start, before + [s] + after).escrow.Some?
    ensures s.call.CallCreate? && Surplus(start, Run(start, before + [s] + after), s.call.milestones) == 0
  {
    var w := Run(start, before + [s] + after);
    SettledAlways(start, before + [s] + after);
    assert s in before + [s] + after;
    FieldsStep(Run(start, before), s);
    OwedBounds(s.call.milestones);
    assert Moved(w.bank.log, Gift(w.escrow.value.token, w.self)) == 0;
  }
}
