/** The milestone escrow as a state machine on values: what every entry point of the contract does
    to the escrow record, the protocol config and the ledger. A call that returns an error or
    panics is rolled back by the host and leaves the world as it was. */
module EscrowSpec {
  import opened Ledger

  datatype EscrowError =
    | AlreadyExists | NotActive | InvalidAmount | DeadlineNotPassed | NotExpired | Paused
    | TokenNotAllowed | IntervalNotElapsed | RecurrenceComplete | NotRecurring
    | MilestoneInvalidIndex | MilestoneNotPending | MilestoneNotSubmitted | InvalidDeadline

  datatype MilestoneStatus = Pending | Submitted | Approved

  datatype Milestone = Milestone(description: string, amount: I128, status: MilestoneStatus)

  datatype EscrowStatus = Active | WorkSubmitted | Completed | Cancelled | Expired

  datatype EscrowData = EscrowData(
    payer: Address,
    freelancer: Address,
    token: Address,
    totalAmount: I128,
    milestones: seq<Milestone>,
    status: EscrowStatus,
    deadline: Option<U64>,
    interval: U64,
    recurrenceCount: U32,
    releasesMade: U32,
    lastReleaseTime: U64)

  datatype ProtocolConfig = ProtocolConfig(admin: Address, paused: bool, feeBps: U32, feeCollector: Address)

  /** `self` is the contract's own address, its vault; `allowed` the stored token allowlist. */
  datatype World = World(
    self: Address,
    bank: Bank,
    config: Option<ProtocolConfig>,
    escrow: Option<EscrowData>,
    allowed: seq<Address>)

  /** What the host supplies to one call: who signed, the ledger time, and a value for `data.amount`,
      a field the recurring code reads but the record does not have. It may be anything. */
  datatype Env = Env(signers: set<Address>, now: U64, unitAmount: I128)

  // `Panic` is a host trap: missing record, missing signature, overflow or a refused transfer.
  datatype Outcome = Ok | Err(error: EscrowError) | Panic

  datatype Reply = Reply(world: World, outcome: Outcome)

  // ---------------------------------------------------------------------------------------------
  // Sums over milestones

  datatype Column =
    | Amounts | Paid | Owed | Progress | PaidCount
    | Fees(bps: U32)
    | Due(bps: U32, vault: Address, collector: Address, freelancer: Address, who: Address)

  /** One milestone's entry. `Owed` is what is still locked for it, `Progress` the submit and approve
      steps it has left, `Due` what paying it would change in `who`'s balance. */
  function Entry(k: Column, m: Milestone): int {
    match k
    case Amounts => m.amount
    case Paid => if m.status == Approved then m.amount else 0
    case Owed => if m.status == Approved then 0 else m.amount
    case Progress => (match m.status case Pending => 2 case Submitted => 1 case Approved => 0)
    case PaidCount => if m.status == Approved then 1 else 0
    case Fees(bps) => if m.status == Approved then FeeOf(m.amount, bps) else 0
    case Due(bps, vault, collector, freelancer, who) =>
      if m.status == Approved then 0
      else (if who == collector then FeeOf(m.amount, bps) else 0)
           + (if who == freelancer then m.amount - FeeOf(m.amount, bps) else 0)
           - (if who == vault then m.amount else 0)
  }

  function Total(k: Column, ms: seq<Milestone>): int {
    if ms == [] then 0 else Total(k, ms[..|ms| - 1]) + Entry(k, ms[|ms| - 1])
  }

  predicate AllApproved(ms: seq<Milestone>) { forall m <- ms :: m.status == Approved }

  predicate NoneApproved(ms: seq<Milestone>) { forall m <- ms :: m.status != Approved }

  datatype Checked = Sum(value: int) | NotPositive | Overflow

  /** The checked running sum of `create`: the first bad milestone decides how it fails. */
  function CheckedTotal(ms: seq<Milestone>): (r: Checked)
    ensures r.Sum? <==> (forall m <- ms :: m.amount > 0) && Total(Amounts, ms) <= I128_MAX
    ensures r.Sum? ==> r.value == Total(Amounts, ms) && r.value >= |ms|
  {
    if ms == [] then Sum(0)
    else
      var n := |ms| - 1;
      assert ms == ms[..n] + [ms[n]];
      match CheckedTotal(ms[..n])
      case Sum(acc) =>
        if ms[n].amount <= 0 then NotPositive
        else if !FitsI128(acc + ms[n].amount) then Overflow
        else Sum(acc + ms[n].amount)
      case bad => bad
  }

  // ---------------------------------------------------------------------------------------------
  // Fees

  // Rust's integer division truncates toward zero.
  function TruncDiv(x: int, d: int): int
    requires d > 0
  {
    if x >= 0 then x / d else -((-x) / d)
  }

  function FeeOf(amount: int, bps: U32): int { TruncDiv(amount * bps, 10000) }

  /** The net amount and the fee; nothing when `amount * fee_bps` overflows. */
  function Split(config: Option<ProtocolConfig>, amount: I128): Option<(int, int)> {
    if config.None? then Some((amount, 0))
    else if !FitsI128(amount * config.value.feeBps) then None
    else
      var fee := FeeOf(amount, config.value.feeBps);
      Some((amount - fee, fee))
  }

  /** Fee to the collector if it is positive, then the rest to the freelancer. */
  function PayOut(w: World, d: EscrowData, amount: I128): Option<Bank> {
    match Split(w.config, amount)
    case None => None
    case Some((net, fee)) =>
      var afterFee := if fee > 0 then Transfer(w.bank, d.token, w.self, w.config.value.feeCollector, fee, Fee)
                      else Some(w.bank);
      match afterFee
      case None => None
      case Some(bank) => Transfer(bank, d.token, w.self, d.freelancer, net, Payout)
  }

  /** The shape of every stored record, which `create` establishes and no call breaks. */
  ghost predicate WellFormed(w: World) {
    w.escrow.Some? ==>
      var d := w.escrow.value;
      && d.milestones != []
      && (forall m <- d.milestones :: m.amount > 0)
      && d.totalAmount == Total(Amounts, d.milestones)
      && d.status != WorkSubmitted
      && d.releasesMade <= d.recurrenceCount
  }

  // ---------------------------------------------------------------------------------------------
  // Entry points

  predicate IsPaused(w: World) { w.config.Some? && w.config.value.paused }

  function Init(w: World, admin: Address, feeBps: U32, feeCollector: Address, env: Env): Reply {
    if w.config.Some? then Reply(w, Err(AlreadyExists))
    else if admin !in env.signers then Reply(w, Panic)
    else Reply(w.(config := Some(ProtocolConfig(admin, false, feeBps, feeCollector))), Ok)
  }

  function SetPaused(w: World, paused: bool, env: Env): Reply {
    if w.config.None? || w.config.value.admin !in env.signers then Reply(w, Panic)
    else Reply(w.(config := Some(w.config.value.(paused := paused))), Ok)
  }

  function Create(w: World, payer: Address, freelancer: Address, token: Address, ms: seq<Milestone>,
                  deadline: Option<U64>, interval: U64, recurrenceCount: U32, env: Env): Reply {
    if IsPaused(w) then Reply(w, Err(Paused))
    else if w.escrow.Some? then Reply(w, Err(AlreadyExists))
    else if ms == [] then Reply(w, Err(InvalidAmount))
    else match CheckedTotal(ms)
      case NotPositive => Reply(w, Err(InvalidAmount))
      case Overflow => Reply(w, Panic)
      case Sum(total) =>
        if total <= 0 then Reply(w, Err(InvalidAmount))
        else if w.allowed != [] && token !in w.allowed then Reply(w, Err(TokenNotAllowed))
        else if payer !in env.signers then Reply(w, Panic)
        else match Transfer(w.bank, token, payer, w.self, total, Deposit)
          case None => Reply(w, Panic)
          case Some(bank) =>
            var data := EscrowData(payer, freelancer, token, total, ms, Active, deadline,
                                   interval, recurrenceCount, 0, env.now);
            Reply(w.(bank := bank, escrow := Some(data)), Ok)
  }

  function WithStatus(ms: seq<Milestone>, idx: nat, status: MilestoneStatus): seq<Milestone>
    requires idx < |ms|
  {
    ms[idx := ms[idx].(status := status)]
  }

  function SubmitWork(w: World, idx: U32, env: Env): Reply {
    if IsPaused(w) then Reply(w, Err(Paused))
    else if w.escrow.None? then Reply(w, Panic)
    else
      var d := w.escrow.value;
      if d.status != Active then Reply(w, Err(NotActive))
      else if idx >= |d.milestones| then Reply(w, Err(MilestoneInvalidIndex))
      else if d.milestones[idx].status != Pending then Reply(w, Err(MilestoneNotPending))
      else if d.freelancer !in env.signers then Reply(w, Panic)
      else Reply(w.(escrow := Some(d.(milestones := WithStatus(d.milestones, idx, Submitted)))), Ok)
  }

  /** Note that the escrow's own status is never looked at. */
  function Approve(w: World, idx: U32, env: Env): Reply {
    if IsPaused(w) then Reply(w, Err(Paused))
    else if w.escrow.None? then Reply(w, Panic)
    else
      var d := w.escrow.value;
      if idx >= |d.milestones| then Reply(w, Err(MilestoneInvalidIndex))
      else if d.milestones[idx].status != Submitted then Reply(w, Err(MilestoneNotSubmitted))
      else if d.payer !in env.signers then Reply(w, Panic)
      else match PayOut(w, d, d.milestones[idx].amount)
        case None => Reply(w, Panic)
        case Some(bank) =>
          var ms := WithStatus(d.milestones, idx, Approved);
          var status := if AllApproved(ms) then Completed else d.status;
          Reply(w.(bank := bank, escrow := Some(d.(milestones := ms, status := status))), Ok)
  }

  function ReleaseRecurring(w: World, env: Env): Reply {
    if IsPaused(w) then Reply(w, Err(Paused))
    else if w.escrow.None? then Reply(w, Panic)
    else
      var d := w.escrow.value;
      if d.interval == 0 || d.recurrenceCount == 0 then Reply(w, Err(NotRecurring))
      else if d.status != Active then Reply(w, Err(NotActive))
      else if d.releasesMade >= d.recurrenceCount then Reply(w, Err(RecurrenceComplete))
      else if d.lastReleaseTime + d.interval > U64_MAX then Reply(w, Panic)
      else if env.now < d.lastReleaseTime + d.interval then Reply(w, Err(IntervalNotElapsed))
      else match PayOut(w, d, env.unitAmount)
        case None => Reply(w, Panic)
        case Some(bank) =>
          var made := d.releasesMade + 1;
          var status := if made >= d.recurrenceCount then Completed else Active;
          Reply(w.(bank := bank,
                   escrow := Some(d.(releasesMade := made, lastReleaseTime := env.now, status := status))), Ok)
  }

  /** What `cancel` and `expire` send back: total minus released, plus the recurring term exactly as
      the code adds it. Nothing on i128 overflow. */
  function Remaining(d: EscrowData, unitAmount: I128): Option<int> {
    var recurring := if d.recurrenceCount > 0 then unitAmount * d.releasesMade else 0;
    var remaining := d.totalAmount - Total(Paid, d.milestones) + recurring;
    if FitsI128(recurring) && FitsI128(remaining) then Some(remaining) else None
  }

  function RefundAndClose(w: World, d: EscrowData, closed: EscrowStatus, env: Env): Reply {
    match Remaining(d, env.unitAmount)
    case None => Reply(w, Panic)
    case Some(remaining) =>
      match Transfer(w.bank, d.token, w.self, d.payer, remaining, Refund)
      case None => Reply(w, Panic)
      case Some(bank) => Reply(w.(bank := bank, escrow := Some(d.(status := closed))), Ok)
  }

  function Cancel(w: World, env: Env): Reply {
    if IsPaused(w) then Reply(w, Err(Paused))
    else if w.escrow.None? then Reply(w, Panic)
    else
      var d := w.escrow.value;
      if d.status != Active then Reply(w, Err(NotActive))
      else if d.payer !in env.signers then Reply(w, Panic)
      else RefundAndClose(w, d, Cancelled, env)
  }

  function Expire(w: World, env: Env): Reply {
    if IsPaused(w) then Reply(w, Err(Paused))
    else if w.escrow.None? then Reply(w, Panic)
    else
      var d := w.escrow.value;
      if d.status != Active then Reply(w, Err(NotActive))
      else if d.deadline.None? then Reply(w, Err(NotExpired))
      else if env.now <= d.deadline.value then Reply(w, Err(DeadlineNotPassed))
      else if d.payer !in env.signers then Reply(w, Panic)
      else RefundAndClose(w, d, Expired, env)
  }

  function TransferFreelancer(w: World, newFreelancer: Address, env: Env): Reply {
    if IsPaused(w) then Reply(w, Err(Paused))
    else if w.escrow.None? || w.escrow.value.freelancer !in env.signers then Reply(w, Panic)
    else Reply(w.(escrow := Some(w.escrow.value.(freelancer := newFreelancer))), Ok)
  }

  function TransferPayer(w: World, newPayer: Address, env: Env): Reply {
    if IsPaused(w) then Reply(w, Err(Paused))
    else if w.escrow.None? || w.escrow.value.payer !in env.signers then Reply(w, Panic)
    else Reply(w.(escrow := Some(w.escrow.value.(payer := newPayer))), Ok)
  }

  function ExtendDeadline(w: World, newDeadline: U64, env: Env): Reply {
    if IsPaused(w) then Reply(w, Err(Paused))
    else if w.escrow.None? || w.escrow.value.payer !in env.signers then Reply(w, Panic)
    else
      var d := w.escrow.value;
      if d.deadline.None? || newDeadline <= d.deadline.value then Reply(w, Err(InvalidDeadline))
      else Reply(w.(escrow := Some(d.(deadline := Some(newDeadline)))), Ok)
  }

  /** A transfer by somebody else, in any token and to anybody, the vault included. */
  function OutsideTransfer(w: World, token: Address, src: Address, dst: Address, amount: int, env: Env): Reply {
    if src !in env.signers then Reply(w, Panic)
    else match Transfer(w.bank, token, src, dst, amount, Outside)
      case None => Reply(w, Panic)
      case Some(bank) => Reply(w.(bank := bank), Ok)
  }

  // ---------------------------------------------------------------------------------------------
  // Runs

  datatype Call =
    | CallInit(admin: Address, feeBps: U32, feeCollector: Address)
    | CallPause
    | CallUnpause
    | CallCreate(payer: Address, freelancer: Address, token: Address, milestones: seq<Milestone>,
                 deadline: Option<U64>, interval: U64, recurrenceCount: U32)
    | CallSubmitWork(idx: U32)
    | CallApprove(idx: U32)
    | CallReleaseRecurring
    | CallCancel
    | CallExpire
    | CallTransferFreelancer(newFreelancer: Address)
    | CallTransferPayer(newPayer: Address)
    | CallExtendDeadline(newDeadline: U64)
    | CallOutside(tok: Address, src: Address, dst: Address, amount: int)

  datatype Step = Step(call: Call, env: Env)

  function Apply(w: World, s: Step): Reply {
    match s.call
    case CallInit(admin, feeBps, feeCollector) => Init(w, admin, feeBps, feeCollector, s.env)
    case CallPause => SetPaused(w, true, s.env)
    case CallUnpause => SetPaused(w, false, s.env)
    case CallCreate(payer, freelancer, token, ms, deadline, interval, count) =>
      Create(w, payer, freelancer, token, ms, deadline, interval, count, s.env)
    case CallSubmitWork(idx) => SubmitWork(w, idx, s.env)
    case CallApprove(idx) => Approve(w, idx, s.env)
    case CallReleaseRecurring => ReleaseRecurring(w, s.env)
    case CallCancel => Cancel(w, s.env)
    case CallExpire => Expire(w, s.env)
    case CallTransferFreelancer(who) => TransferFreelancer(w, who, s.env)
    case CallTransferPayer(who) => TransferPayer(w, who, s.env)
    case CallExtendDeadline(t) => ExtendDeadline(w, t, s.env)
    case CallOutside(tok, src, dst, amount) => OutsideTransfer(w, tok, src, dst, amount, s.env)
  }

  function Next(w: World, s: Step): World { Apply(w, s).world }

  function Run(w: World, run: seq<Step>): World {
    if run == [] then w else Next(Run(w, run[..|run| - 1]), run[|run| - 1])
  }

  lemma {:induction false} RunSnoc(w: World, run: seq<Step>, s: Step)
    ensures Run(w, run + [s]) == Next(Run(w, run), s)
  {
    assert (run + [s])[..|run|] == run;
  }

  lemma {:induction false} RunConcat(w: World, first: seq<Step>, second: seq<Step>)
    ensures Run(w, first + second) == Run(Run(w, first), second)
    decreases |second|
  {
    if second == [] {
      assert first + second == first;
    } else {
      var n := |second| - 1;
      assert (first + second)[..|first + second| - 1] == first + second[..n];
      RunConcat(w, first, second[..n]);
    }
  }
}
