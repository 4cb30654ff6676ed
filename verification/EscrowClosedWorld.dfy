/** The closed world: nobody else sends tokens to the vault and the vault's own address plays no
    role. There the vault holds exactly what is owed, approvals and refunds never lack funds, and
    a closed escrow stays closed although `approve` never looks at the status. */
module EscrowClosedWorld {
  import opened Ledger
  import opened EscrowSpec
  import opened EscrowSums
  import opened EscrowMoney
  import opened EscrowSettlement

  predicate Closed(d: EscrowData) { d.status == Cancelled || d.status == Expired }

  /** What the vault should hold for an escrow. */
  function Held(d: EscrowData): int { if Closed(d) then 0 else Total(Owed, d.milestones) }

  ghost predicate RolesApart(w: World) {
    && (w.config.Some? ==> w.config.value.feeCollector != w.self)
    && (w.escrow.Some? ==> w.escrow.value.freelancer != w.self && w.escrow.value.payer != w.self)
  }

  ghost predicate Refunded(w: World) {
    w.escrow.Some? && w.escrow.value.releasesMade == 0 ==>
      var d := w.escrow.value;
      && MovedAs(w, d.token, Refund) == Total(Owed, d.milestones) - Held(d)
      && (AllApproved(d.milestones) ==> d.status == Completed)
  }

  ghost predicate Settled(w: World) {
    && Books(w) && Accounts(w) && RolesApart(w) && Refunded(w)
    && (forall t :: Moved(w.bank.log, Gift(t, w.self)) == 0 && Opening(w.bank, t, w.self) == 0)
  }

  lemma {:induction false} VaultHoldsWhatIsOwed(w: World)
    requires Settled(w) && w.escrow.Some? && w.escrow.value.releasesMade == 0
    ensures Balance(w.bank, w.escrow.value.token, w.self) == Held(w.escrow.value)
  {
    var d := w.escrow.value;
    assert Moved(w.bank.log, Gift(d.token, w.self)) == 0 && Opening(w.bank, d.token, w.self) == 0;
    assert Moved(w.bank.log, Labelled(d.token, Deposit)) == Locked(w, d.token);
    FlowByLabel(w.bank.log, w.self, d.token);
    PaidPlusOwed(d.milestones);
  }

  // ---------------------------------------------------------------------------------------------
  // When payments and refunds go through

  /** The fee computation does not overflow, and the fee does not exceed the amount. */
  predicate FeeFits(config: Option<ProtocolConfig>, amount: I128) {
    config.Some? ==>
      var product := amount * config.value.feeBps;
      product <= I128_MAX && product / 10000 <= amount
  }

  /** What the vault must hold to pay out an amount. A fee that the vault collects itself comes back
      before the rest is paid. */
  function Needed(w: World, amount: I128): int {
    if w.config.Some? && w.config.value.feeCollector == w.self then
      var fee := amount * w.config.value.feeBps / 10000;
      if fee > amount - fee then fee else amount - fee
    else amount
  }

  /** A payout succeeds exactly if its fee fits and the vault holds what it needs. */
  lemma {:induction false} PayOutIff(w: World, d: EscrowData, amount: I128)
    requires amount > 0
    ensures PayOut(w, d, amount).Some? <==>
              FeeFits(w.config, amount) && Needed(w, amount) <= Balance(w.bank, d.token, w.self)
  {
    if w.config.Some? { FeeOfPositive(amount, w.config.value.feeBps); }
  }

  /** The whole amount is always enough. */
  lemma {:induction false} NeededIsCovered(w: World, amount: I128)
    requires amount > 0 && FeeFits(w.config, amount)
    ensures Needed(w, amount) <= amount
  {
    if w.config.Some? { FeeOfPositive(amount, w.config.value.feeBps); }
  }

  /** Without recurring releases the refund is what is owed. */
  lemma {:induction false} RemainingIsOwed(d: EscrowData, unitAmount: I128)
    requires d.releasesMade == 0 && d.totalAmount == Total(Amounts, d.milestones)
    requires forall m <- d.milestones :: m.amount > 0
    ensures Remaining(d, unitAmount) == Some(Total(Owed, d.milestones))
  {
    PaidPlusOwed(d.milestones);
    OwedBounds(d.milestones);
    if d.recurrenceCount > 0 { assert unitAmount * d.releasesMade == 0; }
  }

  // ---------------------------------------------------------------------------------------------
  // Preservation

  lemma {:induction false} NoGifts(w: World, s: Step, t: Address)
    requires RolesApart(w) && Apart(w.self, s) && w.self !in s.env.signers
    ensures Moved(Moves(w, s), Gift(t, w.self)) == 0
  {
    MovedByMoves(w, s, Gift(t, w.self));
  }

  lemma {:induction false} RolesStayApart(w: World, s: Step)
    requires RolesApart(w) && Apart(w.self, s) && w.self !in s.env.signers
    ensures RolesApart(Next(w, s))
  {
  }

  /** The absent status check: on a closed escrow the vault is empty, so `approve` cannot pay. */
  lemma {:induction false} NoLateApproval(w: World, s: Step)
    requires Settled(w) && w.escrow.Some? && w.escrow.value.releasesMade == 0
    requires s.call.CallApprove? && Apply(w, s).outcome.Ok?
    ensures w.escrow.value.status == Active
  {
    var d := w.escrow.value;
    VaultHoldsWhatIsOwed(w);
    assert d.milestones[s.call.idx] in d.milestones;
    PayOutIff(w, d, d.milestones[s.call.idx].amount);
  }

  lemma {:induction false} RefundedStep(w: World, s: Step)
    requires Settled(w) && CreatesUnapproved(s)
    ensures Refunded(Next(w, s))
  {
    if w.escrow.Some? && w.escrow.value.releasesMade > 0 {
      ReleasesNeverDrop(w, s);
    } else if !Touches(s.call) || Apply(w, s).outcome != Ok {
      QuietStep(w, s);
      if w.escrow.Some? { OutgoingOf(w, s, w.escrow.value.token); }
    } else if s.call.CallCancel? || s.call.CallExpire? {
      RefundedAfterRefund(w, s);
    } else if !s.call.CallReleaseRecurring? {
      RefundedAfterOthers(w, s);
    }
  }

  lemma {:induction false} RefundedAfterRefund(w: World, s: Step)
    requires Settled(w) && Apply(w, s).outcome.Ok? && w.escrow.Some? && w.escrow.value.releasesMade == 0
    requires s.call.CallCancel? || s.call.CallExpire?
    ensures Refunded(Next(w, s))
  {
    var d := w.escrow.value;
    RemainingIsOwed(d, s.env.unitAmount);
    var m := RefundMove(w, s.env.unitAmount);
    assert Moves(w, s) == [m];
    MovedOfFew(m, m, Labelled(d.token, Refund));
    MovedAfter(w, s, Labelled(d.token, Refund));
  }

  lemma {:induction false} RefundedAfterOthers(w: World, s: Step)
    requires Settled(w) && CreatesUnapproved(s) && Apply(w, s).outcome.Ok?
    requires w.escrow.Some? ==> w.escrow.value.releasesMade == 0
    requires s.call.CallCreate? || s.call.CallSubmitWork? || s.call.CallApprove?
    ensures Refunded(Next(w, s))
  {
    OutgoingStep(w, s, Next(w, s).escrow.value.token, Refund);
    if s.call.CallCreate? {
      assert s.call.milestones[0] in s.call.milestones;
    } else {
      RefundedAfterAdvance(w, s);
    }
  }

  lemma {:induction false} RefundedAfterAdvance(w: World, s: Step)
    requires Settled(w) && Apply(w, s).outcome.Ok? && w.escrow.Some? && w.escrow.value.releasesMade == 0
    requires s.call.CallSubmitWork? || s.call.CallApprove?
    ensures var d, e := w.escrow.value, Next(w, s).escrow.value;
      && e.token == d.token && !Closed(d) && !Closed(e)
      && (AllApproved(e.milestones) ==> e.status == Completed)
  {
    if s.call.CallApprove? {
      NoLateApproval(w, s);
    } else {
      SubmittedTotals(Owed, w.escrow.value.milestones, s.call.idx);
    }
  }

  lemma {:induction false} ReleasesNeverDrop(w: World, s: Step)
    requires w.escrow.Some?
    ensures Next(w, s).escrow.Some? && Next(w, s).escrow.value.releasesMade >= w.escrow.value.releasesMade
  {
  }

  lemma {:induction false} SettledStep(w: World, s: Step)
    requires Settled(w) && Apart(w.self, s) && CreatesUnapproved(s) && w.self !in s.env.signers
    ensures Settled(Next(w, s))
  {
    BooksStep(w, s);
    AccountsStep(w, s);
    RolesStayApart(w, s);
    RefundedStep(w, s);
    LogGrowsByMoves(w, s, w.self, w.self);
    forall t ensures Moved(Next(w, s).bank.log, Gift(t, w.self)) == 0 && Opening(Next(w, s).bank, t, w.self) == 0 {
      NoGifts(w, s, t);
      MovedAfter(w, s, Gift(t, w.self));
      LogGrowsByMoves(w, s, t, w.self);
      MovedAfter(w, s, Flow(t, w.self));
    }
  }

  lemma {:induction false} SettledFrom(w: World, run: seq<Step>)
    requires Settled(w) && Unsigned(w.self, run)
    requires forall s <- run :: Apart(w.self, s) && CreatesUnapproved(s)
    ensures Settled(Run(w, run)) && Run(w, run).self == w.self
  {
    if run != [] {
      var n := |run| - 1;
      SettledFrom(w, run[..n]);
      assert run[n] in run;
      SettledStep(Run(w, run[..n]), run[n]);
      LogGrowsByMoves(Run(w, run[..n]), run[n], w.self, w.self);
    }
  }

  // ---------------------------------------------------------------------------------------------
  // The theorems

  lemma {:induction false} SettledAlways(start: World, run: seq<Step>)
    requires ClosedWorld(start, run)
    ensures Settled(Run(start, run)) && Run(start, run).self == start.self
  {
    SettledFrom(start, run);
  }

  /** Conservation in the closed world: the vault holds the unapproved milestones while the escrow
      is open and nothing once it is cancelled or expired; what was paid, kept as fees, refunded and
      is still held adds up to the total; and the escrow is completed exactly when every milestone
      is approved. */
  lemma {:induction false} ClosedWorldConservation(start: World, run: seq<Step>)
    requires ClosedWorld(start, run)
    ensures var w := Run(start, run);
      w.escrow.Some? && w.escrow.value.releasesMade == 0 ==>
        var d := w.escrow.value;
        && Balance(w.bank, d.token, w.self) == (if Closed(d) then 0 else Total(Owed, d.milestones))
        && MovedAs(w, d.token, Payout) + MovedAs(w, d.token, Fee) + MovedAs(w, d.token, Refund)
             + Balance(w.bank, d.token, w.self) == d.totalAmount
        && (d.status == Completed <==> AllApproved(d.milestones))
  {
    SettledAlways(start, run);
    var w := Run(start, run);
    if w.escrow.Some? && w.escrow.value.releasesMade == 0 {
      VaultHoldsWhatIsOwed(w);
      PaidPlusOwed(w.escrow.value.milestones);
    }
  }

  /** In the closed world `approve` succeeds exactly when its checks pass, the fee fits and
      the escrow is active: it never lacks funds when it should not, and always does
      when it should. */
  lemma {:induction false} ApproveSucceedsIff(start: World, run: seq<Step>, idx: U32, env: Env)
    requires ClosedWorld(start, run)
    ensures var w := Run(start, run);
      w.escrow.Some? && w.escrow.value.releasesMade == 0 && idx < |w.escrow.value.milestones| ==>
        var d := w.escrow.value; var m := d.milestones[idx];
        Approve(w, idx, env).outcome.Ok? <==>
          && !IsPaused(w) && d.payer in env.signers && m.status == Submitted
          && FeeFits(w.config, m.amount)
          && d.status == Active
  {
    SettledAlways(start, run);
    var w := Run(start, run);
    if w.escrow.Some? && w.escrow.value.releasesMade == 0 && idx < |w.escrow.value.milestones| {
      var d := w.escrow.value;
      VaultHoldsWhatIsOwed(w);
      assert d.milestones[idx] in d.milestones;
      PayOutIff(w, d, d.milestones[idx].amount);
      OwedCoversEach(d.milestones, idx);
    }
  }

  lemma {:induction false} OwedCoversEach(ms: seq<Milestone>, idx: nat)
    requires idx < |ms| && forall m <- ms :: m.amount > 0
    ensures ms[idx].status != Approved ==> ms[idx].amount <= Total(Owed, ms)
  {
    var n := |ms| - 1;
    if idx < n {
      OwedCoversEach(ms[..n], idx);
    } else {
      OwedBounds(ms[..n]);
    }
  }

  /** `cancel` and `expire` never lack funds either, and return everything still owed. */
  lemma {:induction false} RefundSucceedsIff(start: World, run: seq<Step>, env: Env)
    requires ClosedWorld(start, run)
    ensures var w := Run(start, run);
      w.escrow.Some? && w.escrow.value.releasesMade == 0 ==>
        var d := w.escrow.value; var may := !IsPaused(w) && d.status == Active && d.payer in env.signers;
        && (Cancel(w, env).outcome.Ok? <==> may)
        && (Expire(w, env).outcome.Ok? <==> may && d.deadline.Some? && env.now > d.deadline.value)
        && (Cancel(w, env).outcome.Ok? ==>
              Balance(Cancel(w, env).world.bank, d.token, d.payer) ==
                Balance(w.bank, d.token, d.payer) + Total(Owed, d.milestones))
        && (Expire(w, env).outcome.Ok? ==>
              Balance(Expire(w, env).world.bank, d.token, d.payer) ==
                Balance(w.bank, d.token, d.payer) + Total(Owed, d.milestones))
  {
    SettledAlways(start, run);
    var w := Run(start, run);
    if w.escrow.Some? && w.escrow.value.releasesMade == 0 {
      var d := w.escrow.value;
      VaultHoldsWhatIsOwed(w);
      RemainingIsOwed(d, env.unitAmount);
      OwedBounds(d.milestones);
    }
  }

  /** Completed, cancelled and expired are final: whatever is called afterwards, status and
      milestones stay and no token leaves the vault again. */
  lemma {:induction false} TerminalIsFinal(start: World, run: seq<Step>, later: seq<Step>)
    requires ClosedWorld(start, run + later)
    requires Run(start, run).escrow.Some? && Run(start, run).escrow.value.releasesMade == 0
    requires Run(start, run).escrow.value.status != Active
    ensures var w, z := Run(start, run), Run(start, run + later);
      && z.escrow.Some?
      && z.escrow.value.status == w.escrow.value.status
      && z.escrow.value.milestones == w.escrow.value.milestones
      && w.bank.log <= z.bank.log
      && (forall m <- z.bank.log[|w.bank.log|..] :: m.src != start.self)
  {
    assert forall s <- run :: s in run + later;
    assert forall s <- later :: s in run + later;
    SettledAlways(start, run);
    RunConcat(start, run, later);
    TerminalFrom(Run(start, run), later);
  }

  lemma {:induction false} TerminalFrom(w: World, run: seq<Step>)
    requires Settled(w) && Unsigned(w.self, run)
    requires forall s <- run :: Apart(w.self, s) && CreatesUnapproved(s)
    requires w.escrow.Some? && w.escrow.value.releasesMade == 0 && w.escrow.value.status != Active
    ensures var z := Run(w, run);
      && z.escrow.Some? && z.escrow.value.releasesMade == 0
      && z.escrow.value.status == w.escrow.value.status
      && z.escrow.value.milestones == w.escrow.value.milestones
      && w.bank.log <= z.bank.log
      && (forall m <- z.bank.log[|w.bank.log|..] :: m.src != w.self)
  {
    if run != [] {
      var n := |run| - 1;
      TerminalFrom(w, run[..n]);
      SettledFrom(w, run[..n]);
      assert run[n] in run;
      TerminalStep(Run(w, run[..n]), run[n]);
      LogGrowsByMoves(Run(w, run[..n]), run[n], w.self, w.self);
    }
  }

  lemma {:induction false} TerminalStep(w: World, s: Step)
    requires Settled(w) && w.self !in s.env.signers
    requires w.escrow.Some? && w.escrow.value.releasesMade == 0 && w.escrow.value.status != Active
    ensures SameBooks(w.escrow, Next(w, s).escrow)
    ensures forall m <- Moves(w, s) :: m.src != w.self
  {
    if s.call.CallApprove? && Apply(w, s).outcome.Ok? { NoLateApproval(w, s); }
    QuietStep(w, s);
  }
}
