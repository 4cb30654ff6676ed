/** How the record and the money agree, in any world: what was paid is what was approved, and while
    the escrow is active what is held covers what is owed. All for as long as no recurring release
    was made. */
module EscrowSettlement {
  import opened Ledger
  import opened EscrowSpec
  import opened EscrowSums
  import opened EscrowMoney

  // ---------------------------------------------------------------------------------------------
  // Any world: paid is approved

  function MovedAs(w: World, t: Address, memo: Label): int { Moved(w.bank.log, Labelled(t, memo)) }

  /** Fees and payouts together are the approved amounts; nothing is refunded while the escrow is
      active; an active escrow has something left to approve and a completed one has not. */
  ghost predicate RecordAgrees(w: World) {
    w.escrow.Some? && w.escrow.value.releasesMade == 0 ==>
      var d := w.escrow.value;
      && MovedAs(w, d.token, Fee) + MovedAs(w, d.token, Payout) == Total(Paid, d.milestones)
      && (d.status == Active ==> MovedAs(w, d.token, Refund) == 0 && !AllApproved(d.milestones))
      && (d.status == Completed ==> AllApproved(d.milestones))
  }

  /** Before there is an escrow nothing leaves the vault. */
  ghost predicate Untouched(w: World) {
    w.escrow.None? ==>
      forall t :: MovedAs(w, t, Fee) == 0 && MovedAs(w, t, Payout) == 0 && MovedAs(w, t, Refund) == 0
  }

  ghost predicate Accounts(w: World) {
    WellFormed(w) && Untouched(w) && RecordAgrees(w)
  }

  /** What one call adds to the three outgoing sums. */
  lemma {:induction false} OutgoingStep(w: World, s: Step, t: Address, memo: Label)
    requires memo == Fee || memo == Payout || memo == Refund
    requires WellFormed(w)
    ensures MovedAs(Next(w, s), t, memo) == MovedAs(w, t, memo) + Moved(Moves(w, s), Labelled(t, memo))
    ensures Apply(w, s).outcome != Ok || !(s.call.CallApprove? || s.call.CallReleaseRecurring?) ==>
              memo == Refund || Moved(Moves(w, s), Labelled(t, memo)) == 0
    ensures Apply(w, s).outcome != Ok || !(s.call.CallCancel? || s.call.CallExpire?) ==>
              memo != Refund || Moved(Moves(w, s), Labelled(t, memo)) == 0
  {
    MovedAfter(w, s, Labelled(t, memo));
    MovedByMoves(w, s, Labelled(t, memo));
  }

  /** A successful approval pays its fee and its net amount, which add up to the milestone. */
  lemma {:induction false} ApprovePays(w: World, s: Step)
    requires WellFormed(w) && s.call.CallApprove? && Apply(w, s).outcome.Ok?
    ensures var d := w.escrow.value; var m := d.milestones[s.call.idx];
      var (net, fee) := Split(w.config, m.amount).value;
      && net >= 0 && fee >= 0 && net + fee == m.amount
      && Moved(Moves(w, s), Labelled(d.token, Fee)) == fee
      && Moved(Moves(w, s), Labelled(d.token, Payout)) == net
  {
    var d := w.escrow.value;
    assert d.milestones[s.call.idx] in d.milestones;
    SplitOfPositive(w.config, d.milestones[s.call.idx].amount);
    MovedByMoves(w, s, Labelled(d.token, Fee));
    MovedByMoves(w, s, Labelled(d.token, Payout));
  }

  /** Where an approval's money goes, in any world: the fee to the collector, the rest of the
      milestone to the freelancer, all of it out of the vault, and nobody else is touched. */
  lemma {:induction false} ApproveMovesMoney(w: World, idx: U32, env: Env, t: Address, a: Address)
    requires WellFormed(w) && Approve(w, idx, env).outcome.Ok?
    ensures var d := w.escrow.value; var amount := d.milestones[idx].amount;
      var fee := if w.config.Some? then FeeOf(amount, w.config.value.feeBps) else 0;
      && (t != d.token ==> Balance(Approve(w, idx, env).world.bank, t, a) == Balance(w.bank, t, a))
      && (t == d.token ==>
            Balance(Approve(w, idx, env).world.bank, t, a) == Balance(w.bank, t, a)
              + (if w.config.Some? && a == w.config.value.feeCollector then fee else 0)
              + (if a == d.freelancer then amount - fee else 0) - (if a == w.self then amount else 0))
  {
    var s := Step(CallApprove(idx), env);
    ApprovePays(w, s);
    LogGrowsByMoves(w, s, t, a);
    MovedByMoves(w, s, Flow(t, a));
  }

  lemma {:induction false} SplitOfPositive(config: Option<ProtocolConfig>, amount: I128)
    requires amount > 0 && Split(config, amount).Some?
    ensures var (net, fee) := Split(config, amount).value; fee >= 0 && net + fee == amount
  {
    if config.Some? { FeeOfPositive(amount, config.value.feeBps); }
  }

  /** Approving turns exactly one amount from owed to paid. */
  lemma {:induction false} ApprovedTotals(ms: seq<Milestone>, idx: nat)
    requires idx < |ms| && ms[idx].status == Submitted
    ensures Total(Paid, WithStatus(ms, idx, Approved)) == Total(Paid, ms) + ms[idx].amount
    ensures Total(Owed, WithStatus(ms, idx, Approved)) == Total(Owed, ms) - ms[idx].amount
    ensures !AllApproved(ms)
  {
    TotalAfterUpdate(Paid, ms, idx, ms[idx].(status := Approved));
    TotalAfterUpdate(Owed, ms, idx, ms[idx].(status := Approved));
  }

  lemma {:induction false} SubmittedTotals(k: Column, ms: seq<Milestone>, idx: nat)
    requires idx < |ms| && ms[idx].status == Pending && k != Progress
    ensures Total(k, WithStatus(ms, idx, Submitted)) == Total(k, ms)
    ensures AllApproved(WithStatus(ms, idx, Submitted)) == AllApproved(ms) == false
  {
    TotalAfterUpdate(k, ms, idx, ms[idx].(status := Submitted));
    assert WithStatus(ms, idx, Submitted)[idx] in WithStatus(ms, idx, Submitted);
    assert ms[idx] in ms;
  }

  predicate Touches(c: Call) {
    || c.CallCreate? || c.CallSubmitWork? || c.CallApprove? || c.CallReleaseRecurring?
    || c.CallCancel? || c.CallExpire?
  }

  /** Every other call, and every failing one, leaves the record alone but for roles and deadline. */
  predicate SameBooks(before: Option<EscrowData>, after: Option<EscrowData>) {
    match (before, after)
    case (None, None) => true
    case (Some(d), Some(e)) =>
      e == d.(payer := e.payer, freelancer := e.freelancer, deadline := e.deadline)
    case _ => false
  }

  lemma {:induction false} QuietStep(w: World, s: Step)
    requires !Touches(s.call) || Apply(w, s).outcome != Ok
    ensures SameBooks(w.escrow, Next(w, s).escrow)
  {
  }

  lemma {:induction false} UntouchedStep(w: World, s: Step)
    requires WellFormed(w) && Untouched(w)
    ensures Untouched(Next(w, s))
  {
    var n := Next(w, s);
    forall t ensures n.escrow.None? ==>
      MovedAs(n, t, Fee) == 0 && MovedAs(n, t, Payout) == 0 && MovedAs(n, t, Refund) == 0 {
      OutgoingStep(w, s, t, Fee);
      OutgoingStep(w, s, t, Payout);
      OutgoingStep(w, s, t, Refund);
    }
  }

  lemma {:induction false} AccountsStep(w: World, s: Step)
    requires Accounts(w) && CreatesUnapproved(s)
    ensures Accounts(Next(w, s))
  {
    WellFormedStep(w, s);
    UntouchedStep(w, s);
    if !Touches(s.call) || Apply(w, s).outcome != Ok {
      QuietStep(w, s);
      if w.escrow.Some? { OutgoingOf(w, s, w.escrow.value.token); }
    } else if s.call.CallApprove? {
      RecordAgreesAfterApprove(w, s);
    } else if s.call.CallSubmitWork? {
      OutgoingOf(w, s, w.escrow.value.token);
      SubmittedTotals(Paid, w.escrow.value.milestones, s.call.idx);
    } else {
      RecordAgreesAfterOthers(w, s);
    }
  }

  lemma {:induction false} OutgoingOf(w: World, s: Step, t: Address)
    requires WellFormed(w)
    requires !(s.call.CallApprove? || s.call.CallReleaseRecurring?) || Apply(w, s).outcome != Ok
    ensures MovedAs(Next(w, s), t, Fee) == MovedAs(w, t, Fee)
    ensures MovedAs(Next(w, s), t, Payout) == MovedAs(w, t, Payout)
    ensures !(s.call.CallCancel? || s.call.CallExpire?) || Apply(w, s).outcome != Ok ==>
              MovedAs(Next(w, s), t, Refund) == MovedAs(w, t, Refund)
  {
    OutgoingStep(w, s, t, Fee);
    OutgoingStep(w, s, t, Payout);
    OutgoingStep(w, s, t, Refund);
  }

  lemma {:induction false} RecordAgreesAfterApprove(w: World, s: Step)
    requires Accounts(w) && s.call.CallApprove? && Apply(w, s).outcome.Ok?
    ensures RecordAgrees(Next(w, s))
  {
    var t := w.escrow.value.token;
    OutgoingStep(w, s, t, Fee);
    OutgoingStep(w, s, t, Payout);
    OutgoingStep(w, s, t, Refund);
    ApprovePays(w, s);
    ApprovedTotals(w.escrow.value.milestones, s.call.idx);
  }

  lemma {:induction false} RecordAgreesAfterOthers(w: World, s: Step)
    requires Accounts(w) && CreatesUnapproved(s) && Apply(w, s).outcome.Ok?
    requires s.call.CallCreate? || s.call.CallReleaseRecurring? || s.call.CallCancel? || s.call.CallExpire?
    ensures RecordAgrees(Next(w, s))
  {
    if !s.call.CallReleaseRecurring? {
      OutgoingOf(w, s, Next(w, s).escrow.value.token);
    }
    if s.call.CallCreate? {
      OwedBounds(s.call.milestones);
      assert s.call.milestones[0] in s.call.milestones;
    }
  }

  lemma {:induction false} AccountsAlways(start: World, run: seq<Step>)
    requires Deployed(start) && (forall s <- run :: CreatesUnapproved(s))
    ensures Accounts(Run(start, run))
  {
    if run != [] {
      var n := |run| - 1;
      AccountsAlways(start, run[..n]);
      assert run[n] in run;
      AccountsStep(Run(start, run[..n]), run[n]);
    }
  }

  /** While the escrow is active the vault is solvent in any world: it holds exactly what is owed, plus
      what it held at deployment, plus whatever else it received (from outside, or from itself). */
  lemma {:induction false} ActiveIsSolvent(start: World, run: seq<Step>)
    requires Deployed(start) && Unsigned(start.self, run) && (forall s <- run :: CreatesUnapproved(s))
    ensures var w := Run(start, run);
      w.escrow.Some? && w.escrow.value.releasesMade == 0 && w.escrow.value.status == Active ==>
        var d := w.escrow.value;
        && Balance(w.bank, d.token, start.self) == Total(Owed, d.milestones)
             + Balance(start.bank, d.token, start.self) + Moved(w.bank.log, Gift(d.token, start.self))
        && Balance(w.bank, d.token, start.self) >= Total(Owed, d.milestones) > 0
  {
    var w := Run(start, run);
    Conservation(start, run);
    BooksAlways(start, run, start.self, start.self);
    AccountsAlways(start, run);
    if w.escrow.Some? && w.escrow.value.releasesMade == 0 && w.escrow.value.status == Active {
      PaidPlusOwed(w.escrow.value.milestones);
      OwedBounds(w.escrow.value.milestones);
      GiftsArePositive(w.bank.log, w.escrow.value.token, start.self);
    }
  }
}
