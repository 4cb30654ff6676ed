/** Milestones that come in approved. `create` stores the statuses it is given, and an amount that is
    approved from the start is locked but never paid: here is where it goes, over every run. */
module EscrowPreapproved {
  import opened Ledger
  import opened EscrowSpec
  import opened EscrowSums
  import opened EscrowMoney
  import opened EscrowSettlement
  import opened EscrowClosedWorld

  /** Approved amounts that the contract has paid to nobody. */
  function Unpaid(w: World): int
    requires w.escrow.Some?
  {
    var d := w.escrow.value;
    Total(Paid, d.milestones) - MovedAs(w, d.token, Fee) - MovedAs(w, d.token, Payout)
  }

  /** No call but a release changes what is unpaid, and only a closing call refunds. */
  lemma {:induction false} UnpaidStep(w: World, s: Step)
    requires WellFormed(w) && w.escrow.Some?
    ensures var d, n := w.escrow.value, Next(w, s);
      && n.escrow.Some? && n.escrow.value.token == d.token && n.escrow.value.releasesMade >= d.releasesMade
      && (s.call.CallReleaseRecurring? && Apply(w, s).outcome.Ok? ==> n.escrow.value.releasesMade > 0)
      && (!(s.call.CallReleaseRecurring? && Apply(w, s).outcome.Ok?) ==> Unpaid(n) == Unpaid(w))
      && (n.escrow.value.status == Active ==>
            d.status == Active && MovedAs(n, d.token, Refund) == MovedAs(w, d.token, Refund))
  {
    var t := w.escrow.value.token;
    if !Touches(s.call) || Apply(w, s).outcome != Ok {
      QuietStep(w, s);
      OutgoingOf(w, s, t);
    } else if s.call.CallApprove? {
      UnpaidAfterApprove(w, s);
    } else if s.call.CallReleaseRecurring? {
      OutgoingStep(w, s, t, Refund);
    } else {
      OutgoingOf(w, s, t);
      if s.call.CallSubmitWork? { SubmittedTotals(Paid, w.escrow.value.milestones, s.call.idx); }
    }
  }

  lemma {:induction false} UnpaidAfterApprove(w: World, s: Step)
    requires WellFormed(w) && s.call.CallApprove? && Apply(w, s).outcome.Ok?
    ensures var d, n := w.escrow.value, Next(w, s);
      && n.escrow.Some? && n.escrow.value.token == d.token && n.escrow.value.releasesMade == d.releasesMade
      && Unpaid(n) == Unpaid(w)
      && MovedAs(n, d.token, Refund) == MovedAs(w, d.token, Refund)
      && (n.escrow.value.status == Active ==> d.status == Active)
  {
    OutgoingOfApprove(w, s);
    ApprovedTotals(w.escrow.value.milestones, s.call.idx);
  }

  lemma {:induction false} OutgoingOfApprove(w: World, s: Step)
    requires WellFormed(w) && s.call.CallApprove? && Apply(w, s).outcome.Ok?
    ensures var d, n := w.escrow.value, Next(w, s);
      && MovedAs(n, d.token, Fee) + MovedAs(n, d.token, Payout)
           == MovedAs(w, d.token, Fee) + MovedAs(w, d.token, Payout) + d.milestones[s.call.idx].amount
      && MovedAs(n, d.token, Refund) == MovedAs(w, d.token, Refund)
  {
    var t := w.escrow.value.token;
    OutgoingStep(w, s, t, Fee);
    OutgoingStep(w, s, t, Payout);
    OutgoingStep(w, s, t, Refund);
    ApprovePays(w, s);
  }

  /** At creation the unpaid amounts are those that came in approved. */
  lemma {:induction false} UnpaidAtCreation(w: World, s: Step)
    requires WellFormed(w) && Untouched(w) && w.escrow.None? && Next(w, s).escrow.Some?
    ensures s.call.CallCreate? && Next(w, s).escrow.value.milestones == s.call.milestones
    ensures Unpaid(Next(w, s)) == Total(Paid, s.call.milestones) >= 0
    ensures MovedAs(Next(w, s), s.call.token, Refund) == 0 && Next(w, s).escrow.value.token == s.call.token
  {
    OutgoingOf(w, s, s.call.token);
    OwedBounds(s.call.milestones);
  }

  ghost predicate Tracked(w: World) {
    && WellFormed(w) && Untouched(w)
    && (w.escrow.Some? && w.escrow.value.releasesMade == 0 ==>
          && Unpaid(w) >= 0
          && (w.escrow.value.status == Active ==> MovedAs(w, w.escrow.value.token, Refund) == 0))
  }

  lemma {:induction false} TrackedAlways(start: World, run: seq<Step>)
    requires Deployed(start)
    ensures Tracked(Run(start, run))
  {
    if run != [] {
      var w, s := Run(start, run[..|run| - 1]), run[|run| - 1];
      TrackedAlways(start, run[..|run| - 1]);
      WellFormedStep(w, s);
      UntouchedStep(w, s);
      if w.escrow.Some? {
        UnpaidStep(w, s);
      } else if Next(w, s).escrow.Some? {
        UnpaidAtCreation(w, s);
      }
    }
  }

  lemma {:induction false} UnpaidAfter(w: World, run: seq<Step>)
    requires WellFormed(w) && w.escrow.Some?
    ensures var z := Run(w, run);
      && WellFormed(z) && z.escrow.Some? && z.escrow.value.token == w.escrow.value.token
      && (z.escrow.value.releasesMade == 0 ==> Unpaid(z) == Unpaid(w))
  {
    if run != [] {
      var n := |run| - 1;
      UnpaidAfter(w, run[..n]);
      WellFormedStep(Run(w, run[..n]), run[n]);
      UnpaidStep(Run(w, run[..n]), run[n]);
    }
  }

  /** What a reachable vault holds for its escrow, in any world and whatever statuses came in. */
  lemma {:induction false} VaultAccount(start: World, run: seq<Step>)
    requires Deployed(start) && Unsigned(start.self, run)
    ensures var w := Run(start, run);
      w.escrow.Some? ==>
        var d := w.escrow.value;
        && w.self == start.self
        && Balance(w.bank, d.token, w.self) + MovedAs(w, d.token, Refund)
             == Total(Owed, d.milestones) + Unpaid(w)
                + Balance(start.bank, d.token, start.self) + Moved(w.bank.log, Gift(d.token, start.self))
        && (d.releasesMade == 0 && d.status == Active ==> Balance(w.bank, d.token, w.self) >= Total(Owed, d.milestones))
  {
    var w := Run(start, run);
    BooksAlways(start, run, start.self, start.self);
    TrackedAlways(start, run);
    if w.escrow.Some? {
      Conservation(start, run);
      PaidPlusOwed(w.escrow.value.milestones);
      GiftsArePositive(w.bank.log, w.escrow.value.token, start.self);
    }
  }

  /** Amounts that came in approved stay locked: in every later state, whatever was called and as long
      as no recurring release was made, the vault's balance and the refund together are the unapproved
      amounts, plus those that came in approved, plus the opening balance and other receipts. Nothing
      is refunded while the escrow is active. */
  lemma {:induction false} PreapprovedStays(start: World, before: seq<Step>, s: Step, after: seq<Step>)
    requires Deployed(start) && Unsigned(start.self, before + [s] + after)
    requires Run(start, before).escrow.None? && Next(Run(start, before), s).escrow.Some?
    ensures s.call.CallCreate?
    ensures var z := Run(start, before + [s] + after);
      && z.escrow.Some? && z.self == start.self
      && var d := z.escrow.value;
      && d.token == s.call.token
      && (d.releasesMade == 0 ==>
            Balance(z.bank, d.token, z.self) + MovedAs(z, d.token, Refund)
              == Total(Owed, d.milestones) + Total(Paid, s.call.milestones)
                 + Balance(start.bank, d.token, start.self) + Moved(z.bank.log, Gift(d.token, start.self)))
      && (d.releasesMade == 0 && d.status == Active ==> MovedAs(z, d.token, Refund) == 0)
  {
    var w := Run(start, before);
    TrackedAlways(start, before);
    UnpaidAtCreation(w, s);
    WellFormedStep(w, s);
    RunSnoc(start, before, s);
    RunConcat(start, before + [s], after);
    UnpaidAfter(Next(w, s), after);
    TrackedAlways(start, before + [s] + after);
    VaultAccount(start, before + [s] + after);
  }

  /** So at any later point `cancel` goes through exactly if the escrow is active and the payer signed,
      in any world; and what it leaves behind, beyond the opening balance and other receipts, are
      exactly the amounts that came in approved. It leaves nothing exactly if there were none. */
  lemma {:induction false} CancelLeavesThePreapproved(start: World, before: seq<Step>, s: Step, after: seq<Step>,
                                                      env: Env)
    requires Deployed(start) && Unsigned(start.self, before + [s] + after)
    requires Run(start, before).escrow.None? && Next(Run(start, before), s).escrow.Some?
    requires Run(start, before + [s] + after).escrow.Some? ==>
               Run(start, before + [s] + after).escrow.value.releasesMade == 0
    ensures s.call.CallCreate? && Run(start, before + [s] + after).escrow.Some?
    ensures var z := Run(start, before + [s] + after); var d := z.escrow.value;
      var surplus := Balance(start.bank, d.token, start.self) + Moved(z.bank.log, Gift(d.token, start.self));
      && (Cancel(z, env).outcome.Ok? <==> !IsPaused(z) && d.status == Active && d.payer in env.signers)
      && (Cancel(z, env).outcome.Ok? && d.payer != start.self ==>
            var left := Balance(Cancel(z, env).world.bank, d.token, start.self);
            && left == Total(Paid, s.call.milestones) + surplus
            && (left == surplus <==> NoneApproved(s.call.milestones)))
  {
    PreapprovedStays(start, before, s, after);
    VaultAccount(start, before + [s] + after);
    TrackedAlways(start, before + [s] + after);
    TrackedAlways(start, before);
    UnpaidAtCreation(Run(start, before), s);
    var z := Run(start, before + [s] + after);
    RemainingIsOwed(z.escrow.value, env.unitAmount);
    OwedBounds(z.escrow.value.milestones);
    OwedBounds(s.call.milestones);
  }

  // ---------------------------------------------------------------------------------------------
  // What a closed escrow's vault can still pay with

  /** A closed escrow has refunded at least what is still unapproved. */
  ghost predicate Refunds(w: World) {
    w.escrow.Some? && w.escrow.value.releasesMade == 0 && Closed(w.escrow.value) ==>
      MovedAs(w, w.escrow.value.token, Refund) >= Total(Owed, w.escrow.value.milestones)
  }

  lemma {:induction false} RefundsStep(w: World, s: Step)
    requires Tracked(w) && Refunds(w)
    ensures Refunds(Next(w, s))
  {
    if w.escrow.Some? {
      UnpaidStep(w, s);
      var t := w.escrow.value.token;
      if !Touches(s.call) || Apply(w, s).outcome != Ok {
        QuietStep(w, s);
        OutgoingOf(w, s, t);
      } else if s.call.CallCancel? || s.call.CallExpire? {
        RefundsAtClosing(w, s);
      } else if s.call.CallApprove? {
        UnpaidAfterApprove(w, s);
        ApprovedTotals(w.escrow.value.milestones, s.call.idx);
        assert w.escrow.value.milestones[s.call.idx] in w.escrow.value.milestones;
      }
    }
  }

  lemma {:induction false} RefundsAtClosing(w: World, s: Step)
    requires Tracked(w) && Apply(w, s).outcome.Ok? && (s.call.CallCancel? || s.call.CallExpire?)
    ensures Refunds(Next(w, s))
  {
    var d := w.escrow.value;
    if d.releasesMade == 0 {
      RemainingIsOwed(d, s.env.unitAmount);
      MovedAfter(w, s, Labelled(d.token, Refund));
      MovedByMoves(w, s, Labelled(d.token, Refund));
    }
  }

  lemma {:induction false} RefundsAlways(start: World, run: seq<Step>)
    requires Deployed(start)
    ensures Refunds(Run(start, run))
  {
    if run != [] {
      var n := |run| - 1;
      RefundsAlways(start, run[..n]);
      TrackedAlways(start, run[..n]);
      RefundsStep(Run(start, run[..n]), run[n]);
    }
  }

  /** The money that breaks finality, in any world: on a cancelled or expired escrow an approval can
      spend only what came in approved, what the vault held at deployment, and what it received other
      than as a deposit (gifts, and fees, payouts or refunds to its own address). Where there is none
      of it, no milestone of a closed escrow is ever paid. */
  lemma {:induction false} LateApprovalSpendsSurplus(start: World, run: seq<Step>, idx: U32, env: Env)
    requires Deployed(start) && Unsigned(start.self, run)
    ensures var w := Run(start, run);
      w.escrow.Some? && w.escrow.value.releasesMade == 0 && Closed(w.escrow.value) ==>
        var d := w.escrow.value;
        var surplus := Unpaid(w) +
          Balance(start.bank, d.token, start.self) + Moved(w.bank.log, Gift(d.token, start.self));
        && Balance(w.bank, d.token, start.self) <= surplus
        && (Approve(w, idx, env).outcome.Ok? ==> 0 < Needed(w, d.milestones[idx].amount) <= surplus)
  {
    var w := Run(start, run);
    VaultAccount(start, run);
    TrackedAlways(start, run);
    RefundsAlways(start, run);
    if w.escrow.Some? && Approve(w, idx, env).outcome.Ok? {
      var d := w.escrow.value;
      assert d.milestones[idx] in d.milestones;
      PayOutIff(w, d, d.milestones[idx].amount);
    }
  }
}
