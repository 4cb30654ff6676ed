/** The escrow factory as a state machine on values: many single-payment escrows in many tokens over
    one pooled vault, with a running id counter, two indexes and an event log. A call that fails is
    rolled back by the host and leaves the world as it was. */
module FactorySpec {
  import opened Ledger

  datatype FactoryError = NotFound | NotActive | WorkNotSubmitted | InvalidAmount

  datatype Status = Active | WorkSubmitted | Completed | Cancelled

  datatype Record = Record(
    id: U64,
    payer: Address,
    freelancer: Address,
    token: Address,
    amount: I128,
    milestone: string,
    status: Status)

  datatype Key = PayerIndex(who: Address) | FreelancerIndex(who: Address)

  datatype Event =
    | EscrowCreated(id: U64, payer: Address, freelancer: Address, amount: I128)
    | PaymentReleased(id: U64, freelancer: Address, amount: I128)
    | EscrowCancelled(id: U64, payer: Address, amount: I128)

  /** `self` is the factory's own address, the pooled vault. */
  datatype World = World(
    self: Address,
    bank: Bank,
    nextId: Option<U64>,
    records: map<U64, Record>,
    indexes: map<Key, seq<U64>>,
    events: seq<Event>)

  datatype Outcome = Created(id: U64) | Done | Err(error: FactoryError) | Panic

  datatype Reply = Reply(world: World, outcome: Outcome)

  function CurrentId(w: World): U64 { if w.nextId.Some? then w.nextId.value else 0 }

  function Index(indexes: map<Key, seq<U64>>, key: Key): seq<U64> {
    if key in indexes then indexes[key] else []
  }

  function Append(indexes: map<Key, seq<U64>>, key: Key, id: U64): map<Key, seq<U64>> {
    indexes[key := Index(indexes, key) + [id]]
  }

  function CreateEscrow(w: World, payer: Address, freelancer: Address, token: Address, amount: I128,
                        milestone: string, signers: set<Address>): Reply {
    if amount <= 0 then Reply(w, Err(InvalidAmount))
    else if payer !in signers then Reply(w, Panic)
    else match Transfer(w.bank, token, payer, w.self, amount, Deposit)
      case None => Reply(w, Panic)
      case Some(bank) =>
        var id := CurrentId(w);
        if id == U64_MAX then Reply(w, Panic)
        else
          var indexes := Append(Append(w.indexes, PayerIndex(payer), id), FreelancerIndex(freelancer), id);
          Reply(World(w.self, bank, Some(id + 1),
                      w.records[id := Record(id, payer, freelancer, token, amount, milestone, Active)],
                      indexes, w.events + [EscrowCreated(id, payer, freelancer, amount)]),
                Created(id))
  }

  function SubmitWork(w: World, id: U64, signers: set<Address>): Reply {
    if id !in w.records then Reply(w, Err(NotFound))
    else
      var r := w.records[id];
      if r.status != Active then Reply(w, Err(NotActive))
      else if r.freelancer !in signers then Reply(w, Panic)
      else Reply(w.(records := w.records[r.id := r.(status := WorkSubmitted)]), Done)
  }

  function Approve(w: World, id: U64, signers: set<Address>): Reply {
    if id !in w.records then Reply(w, Err(NotFound))
    else
      var r := w.records[id];
      if r.status != WorkSubmitted then Reply(w, Err(FactoryError.WorkNotSubmitted))
      else if r.payer !in signers then Reply(w, Panic)
      else match Transfer(w.bank, r.token, w.self, r.freelancer, r.amount, Payout)
        case None => Reply(w, Panic)
        case Some(bank) =>
          Reply(w.(bank := bank,
                   records := w.records[r.id := r.(status := Completed)],
                   events := w.events + [PaymentReleased(id, r.freelancer, r.amount)]), Done)
  }

  function Cancel(w: World, id: U64, signers: set<Address>): Reply {
    if id !in w.records then Reply(w, Err(NotFound))
    else
      var r := w.records[id];
      if r.status != Active then Reply(w, Err(NotActive))
      else if r.payer !in signers then Reply(w, Panic)
      else match Transfer(w.bank, r.token, w.self, r.payer, r.amount, Refund)
        case None => Reply(w, Panic)
        case Some(bank) =>
          Reply(w.(bank := bank,
                   records := w.records[r.id := r.(status := Cancelled)],
                   events := w.events + [EscrowCancelled(id, r.payer, r.amount)]), Done)
  }

  /** A transfer by somebody else, in any token and to anybody, the vault included. */
  function OutsideTransfer(w: World, token: Address, src: Address, dst: Address, amount: int,
                           signers: set<Address>): Reply {
    if src !in signers then Reply(w, Panic)
    else match Transfer(w.bank, token, src, dst, amount, Outside)
      case None => Reply(w, Panic)
      case Some(bank) => Reply(w.(bank := bank), Done)
  }

  // ---------------------------------------------------------------------------------------------
  // Runs

  datatype Call =
    | CallCreate(payer: Address, freelancer: Address, token: Address, amount: I128, milestone: string)
    | CallSubmitWork(id: U64)
    | CallApprove(id: U64)
    | CallCancel(id: U64)
    | CallOutside(tok: Address, src: Address, dst: Address, units: int)

  datatype Step = Step(call: Call, signers: set<Address>)

  function Apply(w: World, s: Step): Reply {
    match s.call
    case CallCreate(payer, freelancer, token, amount, milestone) =>
      CreateEscrow(w, payer, freelancer, token, amount, milestone, s.signers)
    case CallSubmitWork(id) => SubmitWork(w, id, s.signers)
    case CallApprove(id) => Approve(w, id, s.signers)
    case CallCancel(id) => Cancel(w, id, s.signers)
    case CallOutside(tok, src, dst, units) => OutsideTransfer(w, tok, src, dst, units, s.signers)
  }

  function Next(w: World, s: Step): World { Apply(w, s).world }

  function Run(w: World, run: seq<Step>): World {
    if run == [] then w else Next(Run(w, run[..|run| - 1]), run[|run| - 1])
  }

  /** A freshly deployed factory; the ledger may already hold anything. */
  predicate Deployed(w: World) {
    w.nextId.None? && w.records == map[] && w.indexes == map[] && w.events == [] && w.bank.log == []
  }

  /** The factory's own address signs nothing. */
  predicate Unsigned(vault: Address, run: seq<Step>) {
    forall s <- run :: vault !in s.signers
  }
}
