/** Fees over a run: what truncation per milestone costs against one fee on the whole. */
module EscrowFees {
  import opened Ledger
  import opened EscrowSpec
  import opened EscrowSums
  import opened EscrowMoney
  import opened EscrowSettlement
  import opened EscrowTiming

  /** The fees moved so far are the truncated fees of the approved milestones. */
  ghost predicate FeesMatch(w: World, bps: U32) {
    && Accounts(w)
    && w.config.Some? && w.config.value.feeBps == bps
    && (w.escrow.Some? && w.escrow.value.releasesMade == 0 ==>
          MovedAs(w, w.escrow.value.token, Fee) == Total(Fees(bps), w.escrow.value.milestones))
  }

  lemma {:induction false} NoFeesYet(ms: seq<Milestone>, bps: U32)
    requires NoneApproved(ms)
    ensures Total(Fees(bps), ms) == 0
  {
    if ms != [] {
      assert ms[|ms| - 1] in ms;
      NoFeesYet(ms[..|ms| - 1], bps);
    }
  }

  lemma {:induction false} FeesMatchStep(w: World, s: Step, bps: U32)
    requires FeesMatch(w, bps) && CreatesUnapproved(s)
    ensures FeesMatch(Next(w, s), bps)
  {
    AccountsStep(w, s);
    ConfigStep(w, s);
    if !Touches(s.call) || Apply(w, s).outcome != Ok {
      QuietStep(w, s);
      if w.escrow.Some? { OutgoingOf(w, s, w.escrow.value.token); }
    } else {
      FeesMatchTouch(w, s, bps);
    }
  }

  lemma {:induction false} FeesMatchTouch(w: World, s: Step, bps: U32)
    requires FeesMatch(w, bps) && CreatesUnapproved(s) && Apply(w, s).outcome.Ok? && Touches(s.call)
    ensures var n := Next(w, s);
      n.escrow.Some? && n.escrow.value.releasesMade == 0 ==>
        MovedAs(n, n.escrow.value.token, Fee) == Total(Fees(bps), n.escrow.value.milestones)
  {
    if s.call.CallApprove? {
      OutgoingStep(w, s, w.escrow.value.token, Fee);
      FeesMatchApprove(w, s, bps);
    } else if s.call.CallCreate? {
      OutgoingOf(w, s, s.call.token);
      NoFeesYet(s.call.milestones, bps);
    } else if !s.call.CallReleaseRecurring? {
      FeesMatchUnpaid(w, s, bps);
    }
  }

  lemma {:induction false} FeesMatchUnpaid(w: World, s: Step, bps: U32)
    requires FeesMatch(w, bps) && Apply(w, s).outcome.Ok?
    requires s.call.CallSubmitWork? || s.call.CallCancel? || s.call.CallExpire?
    ensures var d, e := w.escrow.value, Next(w, s).escrow.value;
      && e.token == d.token && e.releasesMade == d.releasesMade
      && Total(Fees(bps), e.milestones) == Total(Fees(bps), d.milestones)
      && MovedAs(Next(w, s), d.token, Fee) == MovedAs(w, d.token, Fee)
  {
    OutgoingOf(w, s, w.escrow.value.token);
    if s.call.CallSubmitWork? { SubmittedTotals(Fees(bps), w.escrow.value.milestones, s.call.idx); }
  }

  lemma {:induction false} FeesMatchApprove(w: World, s: Step, bps: U32)
    requires FeesMatch(w, bps) && Apply(w, s).outcome.Ok? && s.call.CallApprove?
    ensures var d, e := w.escrow.value, Next(w, s).escrow.value;
      && e.token == d.token && e.releasesMade == d.releasesMade
      && Total(Fees(bps), e.milestones)
           == Total(Fees(bps), d.milestones) + Moved(Moves(w, s), Labelled(d.token, Fee))
  {
    var ms := w.escrow.value.milestones;
    ApprovePays(w, s);
    TotalAfterUpdate(Fees(bps), ms, s.call.idx, ms[s.call.idx].(status := Approved));
  }

  lemma {:induction false} FeesMatchFrom(w: World, run: seq<Step>, bps: U32)
    requires FeesMatch(w, bps) && (forall s <- run :: CreatesUnapproved(s))
    ensures FeesMatch(Run(w, run), bps)
  {
    if run != [] {
      var n := |run| - 1;
      FeesMatchFrom(w, run[..n], bps);
      assert run[n] in run;
      FeesMatchStep(Run(w, run[..n]), run[n], bps);
    }
  }

  /** Fee rounding. If the config was in place before the first approval, then at any later point of
      the run, with k milestones approved: the fees collected never exceed the fee of the approved
      sum, fall short of it by at most k - 1 units, and the payouts are exactly the rest. On a
      completed escrow that is the whole total and all n milestones. */
  lemma {:induction false} FeeRounding(start: World, first: seq<Step>, rest: seq<Step>)
    requires Deployed(start) && (forall s <- first + rest :: CreatesUnapproved(s))
    requires var w := Run(start, first);
      && w.config.Some?
      && (w.escrow.Some? ==> w.escrow.value.releasesMade == 0 && NoneApproved(w.escrow.value.milestones))
    ensures var z := Run(start, first + rest);
      z.escrow.Some? && z.escrow.value.releasesMade == 0 ==>
        var d := z.escrow.value;
        var fees := MovedAs(z, d.token, Fee);
        var paid, count := Total(Paid, d.milestones), Total(PaidCount, d.milestones);
        var whole := paid * Run(start, first).config.value.feeBps / 10000;
        && fees <= whole
        && (count > 0 ==> whole <= fees + (count - 1))
        && MovedAs(z, d.token, Payout) == paid - fees
        && (d.status == Completed ==> paid == d.totalAmount && count == |d.milestones|)
  {
    var w := Run(start, first);
    var bps := w.config.value.feeBps;
    assert forall s <- first :: s in first + rest;
    assert forall s <- rest :: s in first + rest;
    AccountsAlways(start, first);
    if w.escrow.Some? {
      OwedBounds(w.escrow.value.milestones);
      NoFeesYet(w.escrow.value.milestones, bps);
      LabelsArePositive(w.bank.log, w.escrow.value.token, Fee);
      LabelsArePositive(w.bank.log, w.escrow.value.token, Payout);
    }
    FeesMatchFrom(w, rest, bps);
    RunConcat(start, first, rest);
    var z := Run(start, first + rest);
    if z.escrow.Some? && z.escrow.value.releasesMade == 0 {
      FeesAgainstWhole(z.escrow.value.milestones, bps);
      if z.escrow.value.status == Completed { AllPaid(z.escrow.value.milestones); }
    }
  }

  lemma {:induction false} LabelsArePositive(log: seq<Movement>, t: Address, memo: Label)
    ensures Moved(log, Labelled(t, memo)) >= 0
  {
    if log != [] { LabelsArePositive(log[..|log| - 1], t, memo); }
  }

  lemma {:induction false} AllPaid(ms: seq<Milestone>)
    requires AllApproved(ms)
    ensures Total(Paid, ms) == Total(Amounts, ms) && Total(PaidCount, ms) == |ms|
  {
    if ms != [] {
      assert ms[|ms| - 1] in ms;
      AllPaid(ms[..|ms| - 1]);
    }
  }
}
