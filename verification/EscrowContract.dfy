/** The escrow contract in its own imperative form: each entry point loads the stored record, works
    on the copy, and saves it. A failing entry point returns before it has written anything, which
    is what the host's rollback amounts to. */
module EscrowContract {
  import opened Ledger
  import opened EscrowSpec
  import opened EscrowSums

  class Contract {
    const address: Address
    var bank: Bank
    var config: Option<ProtocolConfig>
    var escrow: Option<EscrowData>
    var allowed: seq<Address>

    ghost function View(): World
      reads this
    {
      World(address, bank, config, escrow, allowed)
    }

    ghost predicate Valid()
      reads this
    {
      WellFormed(View())
    }

    constructor (address: Address, bank: Bank, allowed: seq<Address>)
      ensures Valid() && View() == World(address, bank, None, None, allowed)
    {
      this.address, this.bank, this.allowed := address, bank, allowed;
      config, escrow := None, None;
    }

    method AssertNotPaused() returns (paused: bool)
      ensures paused == IsPaused(View())
    {
      match config {
        case Some(c) => paused := c.paused;
        case None => paused := false;
      }
    }

    method Init(admin: Address, feeBps: U32, feeCollector: Address, env: Env) returns (r: Outcome)
      requires Valid()
      modifies this
      ensures Valid() && Reply(View(), r) == EscrowSpec.Init(old(View()), admin, feeBps, feeCollector, env)
    {
      if config.Some? { return Err(AlreadyExists); }
      if admin !in env.signers { return Panic; }
      config := Some(ProtocolConfig(admin, false, feeBps, feeCollector));
      return Ok;
    }

    method Pause(env: Env) returns (r: Outcome)
      requires Valid()
      modifies this
      ensures Valid() && Reply(View(), r) == SetPaused(old(View()), true, env)
    {
      if config.None? { return Panic; }
      var c := config.value;
      if c.admin !in env.signers { return Panic; }
      c := c.(paused := true);
      config := Some(c);
      return Ok;
    }

    method Unpause(env: Env) returns (r: Outcome)
      requires Valid()
      modifies this
      ensures Valid() && Reply(View(), r) == SetPaused(old(View()), false, env)
    {
      if config.None? { return Panic; }
      var c := config.value;
      if c.admin !in env.signers { return Panic; }
      c := c.(paused := false);
      config := Some(c);
      return Ok;
    }

    /** The accumulating loop of `create`: stops at the first amount that is not positive or that
        overflows the running total. */
    method TotalAmount(milestones: seq<Milestone>) returns (r: Checked)
      ensures r == CheckedTotal(milestones)
    {
      var total: I128 := 0;
      for i := 0 to |milestones|
        invariant CheckedTotal(milestones[..i]) == Sum(total)
      {
        var amount := milestones[i].amount;
        assert milestones[..i + 1][..i] == milestones[..i];
        if amount <= 0 || !FitsI128(total + amount) {
          CheckedTotalStops(milestones, i);
          return if amount <= 0 then NotPositive else Overflow;
        }
        total := total + amount;
      }
      assert milestones[..|milestones|] == milestones;
      return Sum(total);
    }

    method Create(payer: Address, freelancer: Address, token: Address, milestones: seq<Milestone>,
                  deadline: Option<U64>, interval: U64, recurrenceCount: U32, env: Env)
      returns (r: Outcome)
      requires Valid()
      modifies this
      ensures Valid()
      ensures Reply(View(), r) == EscrowSpec.Create(old(View()), payer, freelancer, token, milestones,
                                                    deadline, interval, recurrenceCount, env)
    {
      var paused := AssertNotPaused();
      if paused { return Err(Paused); }
      if escrow.Some? { return Err(AlreadyExists); }
      if milestones == [] { return Err(InvalidAmount); }
      var checked := TotalAmount(milestones);
      if checked.NotPositive? { return Err(InvalidAmount); }
      if checked.Overflow? { return Panic; }
      var total: I128 := checked.value;
      if total <= 0 { return Err(InvalidAmount); }
      if allowed != [] && token !in allowed { return Err(TokenNotAllowed); }
      if payer !in env.signers { return Panic; }
      var transferred := Transfer(bank, token, payer, address, total, Deposit);
      if transferred.None? { return Panic; }
      bank := transferred.value;
      escrow := Some(EscrowData(payer, freelancer, token, total, milestones, Active, deadline,
                                interval, recurrenceCount, 0, env.now));
      return Ok;
    }

    method SubmitWork(idx: U32, env: Env) returns (r: Outcome)
      requires Valid()
      modifies this
      ensures Valid() && Reply(View(), r) == EscrowSpec.SubmitWork(old(View()), idx, env)
    {
      var paused := AssertNotPaused();
      if paused { return Err(Paused); }
      if escrow.None? { return Panic; }
      var data := escrow.value;
      if data.status != Active { return Err(NotActive); }
      if idx >= |data.milestones| { return Err(MilestoneInvalidIndex); }
      if data.milestones[idx].status != Pending { return Err(MilestoneNotPending); }
      if data.freelancer !in env.signers { return Panic; }
      TotalAfterUpdate(Amounts, data.milestones, idx, data.milestones[idx].(status := Submitted));
      data := data.(milestones := data.milestones[idx := data.milestones[idx].(status := Submitted)]);
      escrow := Some(data);
      return Ok;
    }

    /** The fee transfer and the payout that `approve` and `release_recurring` share. */
    method Pay(data: EscrowData, amount: I128) returns (paid: Option<Bank>)
      ensures paid == PayOut(View(), data, amount)
    {
      var ledger := bank;
      var net: int := amount;
      if config.Some? {
        var product := amount * config.value.feeBps;
        if !FitsI128(product) { return None; }
        var fee := TruncDiv(product, 10000);
        if fee > 0 {
          var toCollector := Transfer(ledger, data.token, address, config.value.feeCollector, fee, Fee);
          if toCollector.None? { return None; }
          ledger := toCollector.value;
        }
        net := amount - fee;
      }
      paid := Transfer(ledger, data.token, address, data.freelancer, net, Payout);
    }

    method AllAreApproved(milestones: seq<Milestone>) returns (all: bool)
      ensures all <==> AllApproved(milestones)
    {
      all := true;
      for i := 0 to |milestones|
        invariant all <==> AllApproved(milestones[..i])
      {
        assert milestones[..i + 1] == milestones[..i] + [milestones[i]];
        all := all && milestones[i].status == Approved;
      }
      assert milestones[..|milestones|] == milestones;
    }

    method Approve(idx: U32, env: Env) returns (r: Outcome)
      requires Valid()
      modifies this
      ensures Valid() && Reply(View(), r) == EscrowSpec.Approve(old(View()), idx, env)
    {
      var paused := AssertNotPaused();
      if paused { return Err(Paused); }
      if escrow.None? { return Panic; }
      var data := escrow.value;
      if idx >= |data.milestones| { return Err(MilestoneInvalidIndex); }
      if data.milestones[idx].status != Submitted { return Err(MilestoneNotSubmitted); }
      if data.payer !in env.signers { return Panic; }
      var paid := Pay(data, data.milestones[idx].amount);
      if paid.None? { return Panic; }
      bank := paid.value;
      TotalAfterUpdate(Amounts, data.milestones, idx, data.milestones[idx].(status := Approved));
      data := data.(milestones := data.milestones[idx := data.milestones[idx].(status := Approved)]);
      var all := AllAreApproved(data.milestones);
      if all { data := data.(status := Completed); }
      escrow := Some(data);
      return Ok;
    }

    method ReleaseRecurring(env: Env) returns (r: Outcome)
      requires Valid()
      modifies this
      ensures Valid() && Reply(View(), r) == EscrowSpec.ReleaseRecurring(old(View()), env)
    {
      var paused := AssertNotPaused();
      if paused { return Err(Paused); }
      if escrow.None? { return Panic; }
      var data := escrow.value;
      if data.interval == 0 || data.recurrenceCount == 0 { return Err(NotRecurring); }
      if data.status != Active { return Err(NotActive); }
      if data.releasesMade >= data.recurrenceCount { return Err(RecurrenceComplete); }
      if data.lastReleaseTime + data.interval > U64_MAX { return Panic; }
      if env.now < data.lastReleaseTime + data.interval { return Err(IntervalNotElapsed); }
      var paid := Pay(data, env.unitAmount);
      if paid.None? { return Panic; }
      bank := paid.value;
      data := data.(releasesMade := data.releasesMade + 1, lastReleaseTime := env.now);
      if data.releasesMade >= data.recurrenceCount { data := data.(status := Completed); }
      escrow := Some(data);
      return Ok;
    }

    /** The sum of the approved milestones. The type of `released` proves that it never overflows. */
    method Released(data: EscrowData) returns (released: I128)
      requires WellFormed(World(address, bank, config, Some(data), allowed))
      ensures released == Total(Paid, data.milestones)
      ensures 0 <= data.totalAmount - released <= I128_MAX
    {
      released := 0;
      PartBelowWhole(data.milestones, 0);
      for i := 0 to |data.milestones|
        invariant released == Total(Paid, data.milestones[..i])
        invariant 0 <= released <= data.totalAmount
      {
        assert data.milestones[..i + 1][..i] == data.milestones[..i];
        PartBelowWhole(data.milestones, i + 1);
        released := released + if data.milestones[i].status == Approved then data.milestones[i].amount else 0;
      }
      assert data.milestones[..|data.milestones|] == data.milestones;
    }

    method Refund(data: EscrowData, closed: EscrowStatus, env: Env) returns (r: Outcome)
      requires Valid() && escrow == Some(data) && closed != WorkSubmitted
      modifies this
      ensures Valid() && Reply(View(), r) == RefundAndClose(old(View()), data, closed, env)
    {
      var released := Released(data);
      var recurring: int := if data.recurrenceCount > 0 then env.unitAmount * data.releasesMade else 0;
      if !FitsI128(recurring) || !FitsI128(data.totalAmount - released + recurring) { return Panic; }
      var remaining: I128 := data.totalAmount - released + recurring;
      var refunded := Transfer(bank, data.token, address, data.payer, remaining, Label.Refund);
      if refunded.None? { return Panic; }
      bank := refunded.value;
      escrow := Some(data.(status := closed));
      return Ok;
    }

    method Cancel(env: Env) returns (r: Outcome)
      requires Valid()
      modifies this
      ensures Valid() && Reply(View(), r) == EscrowSpec.Cancel(old(View()), env)
    {
      var paused := AssertNotPaused();
      if paused { return Err(Paused); }
      if escrow.None? { return Panic; }
      var data := escrow.value;
      if data.status != Active { return Err(NotActive); }
      if data.payer !in env.signers { return Panic; }
      r := Refund(data, Cancelled, env);
    }

    method Expire(env: Env) returns (r: Outcome)
      requires Valid()
      modifies this
      ensures Valid() && Reply(View(), r) == EscrowSpec.Expire(old(View()), env)
    {
      var paused := AssertNotPaused();
      if paused { return Err(Paused); }
      if escrow.None? { return Panic; }
      var data := escrow.value;
      if data.status != Active { return Err(NotActive); }
      if data.deadline.None? { return Err(NotExpired); }
      if env.now <= data.deadline.value { return Err(DeadlineNotPassed); }
      if data.payer !in env.signers { return Panic; }
      r := Refund(data, Expired, env);
    }

    method TransferFreelancer(newFreelancer: Address, env: Env) returns (r: Outcome)
      requires Valid()
      modifies this
      ensures Valid() && Reply(View(), r) == EscrowSpec.TransferFreelancer(old(View()), newFreelancer, env)
    {
      var paused := AssertNotPaused();
      if paused { return Err(Paused); }
      if escrow.None? { return Panic; }
      var data := escrow.value;
      if data.freelancer !in env.signers { return Panic; }
      escrow := Some(data.(freelancer := newFreelancer));
      return Ok;
    }

    method TransferPayer(newPayer: Address, env: Env) returns (r: Outcome)
      requires Valid()
      modifies this
      ensures Valid() && Reply(View(), r) == EscrowSpec.TransferPayer(old(View()), newPayer, env)
    {
      var paused := AssertNotPaused();
      if paused { return Err(Paused); }
      if escrow.None? { return Panic; }
      var data := escrow.value;
      if data.payer !in env.signers { return Panic; }
      escrow := Some(data.(payer := newPayer));
      return Ok;
    }

    method ExtendDeadline(newDeadline: U64, env: Env) returns (r: Outcome)
      requires Valid()
      modifies this
      ensures Valid() && Reply(View(), r) == EscrowSpec.ExtendDeadline(old(View()), newDeadline, env)
    {
      var paused := AssertNotPaused();
      if paused { return Err(Paused); }
      if escrow.None? { return Panic; }
      var data := escrow.value;
      if data.payer !in env.signers { return Panic; }
      if data.deadline.None? || newDeadline <= data.deadline.value { return Err(InvalidDeadline); }
      escrow := Some(data.(deadline := Some(newDeadline)));
      return Ok;
    }
  }
}
