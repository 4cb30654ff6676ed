/** Where the money is, over every run of the escrow contract. */
module EscrowMoney {
  import opened Ledger
  import opened EscrowSpec
  import opened EscrowSums

  // ---------------------------------------------------------------------------------------------
  // Runs and their hypotheses

  /** A freshly deployed contract: nothing stored, no transfer recorded yet. */
  predicate Deployed(w: World) {
    w.escrow.None? && w.config.None? && w.bank.log == []
  }

  /** The contract's own address signs nothing. */
  predicate Unsigned(vault: Address, run: seq<Step>) {
    forall s <- run :: vault !in s.env.signers
  }

  /** A step that neither sends tokens to the vault from outside nor gives the vault's own address
      a role in the escrow. */
  predicate Apart(vault: Address, s: Step) {
    match s.call
    case CallInit(_, _, feeCollector) => feeCollector != vault
    case CallCreate(_, freelancer, _, _, _, _, _) => freelancer != vault
    case CallTransferFreelancer(who) => who != vault
    case CallTransferPayer(who) => who != vault
    case CallOutside(_, _, dst, _) => dst != vault
    case _ => true
  }

  predicate CreatesUnapproved(s: Step) {
    s.call.CallCreate? ==> NoneApproved(s.call.milestones)
  }

  /** A run in which the vault starts empty and only the contract itself puts tokens into it. */
  ghost predicate ClosedWorld(start: World, run: seq<Step>) {
    && Deployed(start)
    && (forall t :: Balance(start.bank, t, start.self) == 0)
    && Unsigned(start.self, run)
    && (forall s <- run :: Apart(start.self, s) && CreatesUnapproved(s))
  }

  // ---------------------------------------------------------------------------------------------
  // The transfers one call makes

  function Collector(w: World): Address {
    if w.config.Some? then w.config.value.feeCollector else w.self
  }

  function PayMoves(w: World, d: EscrowData, net: nat, fee: int): seq<Movement> {
    var payout := Movement(d.token, w.self, d.freelancer, net, Payout);
    if fee > 0 then [Movement(d.token, w.self, Collector(w), fee, Fee), payout] else [payout]
  }

  /** The transfers a call makes, in order; none if it fails. */
  function Moves(w: World, s: Step): seq<Movement> {
    if Apply(w, s).outcome != Ok then []
    else match s.call
      case CallCreate(payer, _, token, ms, _, _, _) =>
        [Movement(token, payer, w.self, CheckedTotal(ms).value, Deposit)]
      case CallApprove(idx) =>
        var d := w.escrow.value;
        var (net, fee) := Split(w.config, d.milestones[idx].amount).value;
        PayMoves(w, d, net, fee)
      case CallReleaseRecurring =>
        var (net, fee) := Split(w.config, s.env.unitAmount).value;
        PayMoves(w, w.escrow.value, net, fee)
      case CallCancel => [RefundMove(w, s.env.unitAmount)]
      case CallExpire => [RefundMove(w, s.env.unitAmount)]
      case CallOutside(tok, src, dst, amount) => [Movement(tok, src, dst, amount, Outside)]
      case _ => []
  }

  function RefundMove(w: World, unitAmount: I128): Movement
    requires w.escrow.Some? && Remaining(w.escrow.value, unitAmount).Some?
    requires Remaining(w.escrow.value, unitAmount).value >= 0
  {
    var d := w.escrow.value;
    Movement(d.token, w.self, d.payer, Remaining(d, unitAmount).value, Refund)
  }

  lemma {:induction false} PayOutMoves(w: World, d: EscrowData, amount: I128, t: Address, a: Address)
    requires PayOut(w, d, amount).Some?
    ensures var (net, fee) := Split(w.config, amount).value; var bank := PayOut(w, d, amount).value;
      && net >= 0
      && bank.log == w.bank.log + PayMoves(w, d, net, fee)
      && Opening(bank, t, a) == Opening(w.bank, t, a)
  {
    var (net, fee) := Split(w.config, amount).value;
    var bank := w.bank;
    if fee > 0 {
      bank := Transfer(w.bank, d.token, w.self, Collector(w), fee, Fee).value;
      TransferKeepsOpening(w.bank, d.token, w.self, Collector(w), fee, Fee, t, a);
    }
    TransferKeepsOpening(bank, d.token, w.self, d.freelancer, net, Payout, t, a);
  }

  ghost predicate Explains(w: World, moves: seq<Movement>, n: World, t: Address, a: Address) {
    && n.self == w.self
    && n.bank.log == w.bank.log + moves
    && Opening(n.bank, t, a) == Opening(w.bank, t, a)
  }

  lemma {:induction false} MovesOfRefund(w: World, s: Step, t: Address, a: Address)
    requires s.call.CallCancel? || s.call.CallExpire?
    ensures Explains(w, Moves(w, s), Next(w, s), t, a)
  {
    if Apply(w, s).outcome.Ok? {
      var m := RefundMove(w, s.env.unitAmount);
      TransferKeepsOpening(w.bank, m.token, m.src, m.dst, m.amount, Refund, t, a);
    }
  }

  lemma {:induction false} MovesOfPayment(w: World, s: Step, t: Address, a: Address)
    requires s.call.CallApprove? || s.call.CallReleaseRecurring?
    ensures Explains(w, Moves(w, s), Next(w, s), t, a)
  {
    if Apply(w, s).outcome.Ok? {
      var d := w.escrow.value;
      PayOutMoves(w, d, if s.call.CallApprove? then d.milestones[s.call.idx].amount else s.env.unitAmount, t, a);
    }
  }

  lemma {:induction false} MovesOfOthers(w: World, s: Step, t: Address, a: Address)
    requires !s.call.CallApprove? && !s.call.CallReleaseRecurring? && !s.call.CallCancel? && !s.call.CallExpire?
    ensures Explains(w, Moves(w, s), Next(w, s), t, a)
  {
    if Apply(w, s).outcome.Ok? {
      match s.call
      case CallCreate(payer, _, token, ms, _, _, _) =>
        TransferKeepsOpening(w.bank, token, payer, w.self, CheckedTotal(ms).value, Deposit, t, a);
      case CallOutside(tok, src, dst, amount) =>
        TransferKeepsOpening(w.bank, tok, src, dst, amount, Outside, t, a);
      case _ =>
    }
  }

  /** `Moves` is what a call appends to the log, and explains every change of balance. */
  lemma {:induction false} LogGrowsByMoves(w: World, s: Step, t: Address, a: Address)
    ensures Next(w, s).self == w.self
    ensures Next(w, s).bank.log == w.bank.log + Moves(w, s)
    ensures Balance(Next(w, s).bank, t, a) == Balance(w.bank, t, a) + Moved(Moves(w, s), Flow(t, a))
  {
    assert Explains(w, Moves(w, s), Next(w, s), t, a) by {
      if s.call.CallApprove? || s.call.CallReleaseRecurring? {
        MovesOfPayment(w, s, t, a);
      } else if s.call.CallCancel? || s.call.CallExpire? {
        MovesOfRefund(w, s, t, a);
      } else {
        MovesOfOthers(w, s, t, a);
      }
    }
    MovedConcat(w.bank.log, Moves(w, s), Flow(t, a));
  }

  /** The log sums after a call. */
  lemma {:induction false} MovedAfter(w: World, s: Step, q: Query)
    ensures Moved(Next(w, s).bank.log, q) == Moved(w.bank.log, q) + Moved(Moves(w, s), q)
  {
    LogGrowsByMoves(w, s, w.self, w.self);
    MovedConcat(w.bank.log, Moves(w, s), q);
  }

  /** The movements of one call, summed. */
  lemma {:induction false} MovedByMoves(w: World, s: Step, q: Query)
    ensures var ms := Moves(w, s);
      && |ms| <= 2
      && Moved(ms, q) == (if |ms| > 0 then Weight(q, ms[0]) else 0) + (if |ms| > 1 then Weight(q, ms[1]) else 0)
  {
    var ms := Moves(w, s);
    if |ms| == 1 {
      assert ms == [ms[0]];
      MovedOfFew(ms[0], ms[0], q);
    } else if |ms| == 2 {
      assert ms == [ms[0], ms[1]];
      MovedOfFew(ms[0], ms[1], q);
    }
  }

  // ---------------------------------------------------------------------------------------------
  // The books: conservation in any world

  lemma {:induction false} WellFormedStep(w: World, s: Step)
    requires WellFormed(w)
    ensures WellFormed(Next(w, s))
  {
    match s.call
    case CallSubmitWork(idx) =>
      if Apply(w, s).outcome.Ok? {
        var ms := w.escrow.value.milestones;
        TotalAfterUpdate(Amounts, ms, idx, ms[idx].(status := Submitted));
      }
    case CallApprove(idx) =>
      if Apply(w, s).outcome.Ok? {
        var ms := w.escrow.value.milestones;
        TotalAfterUpdate(Amounts, ms, idx, ms[idx].(status := Approved));
      }
    case _ =>
  }

  function Locked(w: World, t: Address): int {
    if w.escrow.Some? && w.escrow.value.token == t then w.escrow.value.totalAmount else 0
  }

  /** Every movement has the shape its label says, and exactly the locked total was ever deposited. */
  ghost predicate Books(w: World) {
    && WellFormed(w)
    && Classified(w.bank.log, w.self)
    && forall t :: Moved(w.bank.log, Labelled(t, Deposit)) == Locked(w, t)
  }

  lemma {:induction false} MovesAreClassified(w: World, s: Step)
    requires w.self !in s.env.signers
    ensures Classified(Moves(w, s), w.self)
  {
  }

  lemma {:induction false} DepositIsTheTotal(w: World, s: Step, t: Address)
    ensures Moved(Moves(w, s), Labelled(t, Deposit)) == Locked(Next(w, s), t) - Locked(w, t)
  {
    MovedByMoves(w, s, Labelled(t, Deposit));
  }

  lemma {:induction false} BooksStep(w: World, s: Step)
    requires Books(w) && w.self !in s.env.signers
    ensures Books(Next(w, s))
  {
    WellFormedStep(w, s);
    LogGrowsByMoves(w, s, w.self, w.self);
    MovesAreClassified(w, s);
    forall t ensures Moved(Next(w, s).bank.log, Labelled(t, Deposit)) == Locked(Next(w, s), t) {
      MovedAfter(w, s, Labelled(t, Deposit));
      DepositIsTheTotal(w, s, t);
    }
  }

  lemma {:induction false} BooksAlways(start: World, run: seq<Step>, t: Address, a: Address)
    requires Deployed(start) && Unsigned(start.self, run)
    ensures Books(Run(start, run))
    ensures Run(start, run).self == start.self
    ensures Opening(Run(start, run).bank, t, a) == Balance(start.bank, t, a)
  {
    if run != [] {
      var n := |run| - 1;
      BooksAlways(start, run[..n], t, a);
      assert run[n] in run;
      var w := Run(start, run[..n]);
      BooksStep(w, run[n]);
      LogGrowsByMoves(w, run[n], t, a);
      MovedAfter(w, run[n], Flow(t, a));
    }
  }

  /** Conservation, in any world, recurring or not and with any fee: what the vault holds plus
      everything it paid out, took as fees and refunded is what it held at deployment plus the
      locked total plus whatever else it received, from outside or from itself. */
  lemma {:induction false} Conservation(start: World, run: seq<Step>)
    requires Deployed(start) && Unsigned(start.self, run)
    ensures var w := Run(start, run);
      w.escrow.Some? ==>
        var d, log := w.escrow.value, w.bank.log;
        Balance(w.bank, d.token, w.self)
          + Moved(log, Labelled(d.token, Payout)) + Moved(log, Labelled(d.token, Fee))
          + Moved(log, Labelled(d.token, Refund))
        == Balance(start.bank, d.token, start.self) + d.totalAmount + Moved(log, Gift(d.token, start.self))
  {
    var w := Run(start, run);
    if w.escrow.Some? {
      var tok := w.escrow.value.token;
      BooksAlways(start, run, tok, start.self);
      FlowByLabel(w.bank.log, w.self, tok);
    }
  }
}
