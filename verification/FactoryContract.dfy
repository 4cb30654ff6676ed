/** The factory in its own imperative form, storage helper by storage helper. */
module FactoryContract {
  import opened Ledger
  import opened FactorySpec

  class Factory {
    const address: Address
    var bank: Bank
    var nextId: Option<U64>
    var records: map<U64, Record>
    var indexes: map<Key, seq<U64>>
    var events: seq<Event>

    ghost function View(): World
      reads this
    {
      World(address, bank, nextId, records, indexes, events)
    }

    constructor (address: Address, bank: Bank)
      ensures View() == World(address, bank, None, map[], map[], [])
    {
      this.address, this.bank := address, bank;
      nextId, records, indexes, events := None, map[], map[], [];
    }

    /** Hands out the next id; nothing if the counter would overflow. */
    method NextId() returns (id: Option<U64>)
      modifies this`nextId
      ensures id == if CurrentId(old(View())) == U64_MAX then None else Some(CurrentId(old(View())))
      ensures nextId == if id.None? then old(nextId) else Some(id.value + 1)
    {
      var current := if nextId.Some? then nextId.value else 0;
      if current == U64_MAX { return None; }
      nextId := Some(current + 1);
      return Some(current);
    }

    method SaveEscrow(record: Record)
      modifies this`records
      ensures records == old(records)[record.id := record]
    {
      records := records[record.id := record];
    }

    method LoadEscrow(id: U64) returns (record: Option<Record>)
      ensures record == if id in records then Some(records[id]) else None
    {
      if id in records { return Some(records[id]); }
      return None;
    }

    method AppendToIndex(key: Key, id: U64)
      modifies this`indexes
      ensures indexes == Append(old(indexes), key, id)
    {
      var ids := if key in indexes then indexes[key] else [];
      ids := ids + [id];
      indexes := indexes[key := ids];
    }

    method GetIndex(key: Key) returns (ids: seq<U64>)
      ensures ids == Index(indexes, key)
    {
      ids := if key in indexes then indexes[key] else [];
    }

    method EmitCreated(id: U64, payer: Address, freelancer: Address, amount: I128)
      modifies this`events
      ensures events == old(events) + [EscrowCreated(id, payer, freelancer, amount)]
    {
      events := events + [EscrowCreated(id, payer, freelancer, amount)];
    }

    method EmitReleased(id: U64, freelancer: Address, amount: I128)
      modifies this`events
      ensures events == old(events) + [PaymentReleased(id, freelancer, amount)]
    {
      events := events + [PaymentReleased(id, freelancer, amount)];
    }

    method EmitCancelled(id: U64, payer: Address, amount: I128)
      modifies this`events
      ensures events == old(events) + [EscrowCancelled(id, payer, amount)]
    {
      events := events + [EscrowCancelled(id, payer, amount)];
    }

    method CreateEscrow(payer: Address, freelancer: Address, token: Address, amount: I128,
                        milestone: string, signers: set<Address>)
      returns (r: Outcome)
      modifies this
      ensures Reply(View(), r) ==
              FactorySpec.CreateEscrow(old(View()), payer, freelancer, token, amount, milestone, signers)
    {
      if amount <= 0 { return Err(InvalidAmount); }
      if payer !in signers { return Panic; }
      var transferred := Transfer(bank, token, payer, address, amount, Deposit);
      if transferred.None? { return Panic; }
      var id := NextId();
      if id.None? { return Panic; }
      bank := transferred.value;
      SaveEscrow(Record(id.value, payer, freelancer, token, amount, milestone, Active));
      AppendToIndex(PayerIndex(payer), id.value);
      AppendToIndex(FreelancerIndex(freelancer), id.value);
      EmitCreated(id.value, payer, freelancer, amount);
      return Created(id.value);
    }

    method SubmitWork(id: U64, signers: set<Address>) returns (r: Outcome)
      modifies this
      ensures Reply(View(), r) == FactorySpec.SubmitWork(old(View()), id, signers)
    {
      var loaded := LoadEscrow(id);
      if loaded.None? { return Err(NotFound); }
      var record := loaded.value;
      if record.status != Active { return Err(NotActive); }
      if record.freelancer !in signers { return Panic; }
      record := record.(status := WorkSubmitted);
      SaveEscrow(record);
      return Done;
    }

    method Approve(id: U64, signers: set<Address>) returns (r: Outcome)
      modifies this
      ensures Reply(View(), r) == FactorySpec.Approve(old(View()), id, signers)
    {
      var loaded := LoadEscrow(id);
      if loaded.None? { return Err(NotFound); }
      var record := loaded.value;
      if record.status != WorkSubmitted { return Err(FactoryError.WorkNotSubmitted); }
      if record.payer !in signers { return Panic; }
      var transferred := Transfer(bank, record.token, address, record.freelancer, record.amount, Payout);
      if transferred.None? { return Panic; }
      bank := transferred.value;
      EmitReleased(id, record.freelancer, record.amount);
      record := record.(status := Completed);
      SaveEscrow(record);
      return Done;
    }

    method Cancel(id: U64, signers: set<Address>) returns (r: Outcome)
      modifies this
      ensures Reply(View(), r) == FactorySpec.Cancel(old(View()), id, signers)
    {
      var loaded := LoadEscrow(id);
      if loaded.None? { return Err(NotFound); }
      var record := loaded.value;
      if record.status != Active { return Err(NotActive); }
      if record.payer !in signers { return Panic; }
      var transferred := Transfer(bank, record.token, address, record.payer, record.amount, Refund);
      if transferred.None? { return Panic; }
      bank := transferred.value;
      EmitCancelled(id, record.payer, record.amount);
      record := record.(status := Cancelled);
      SaveEscrow(record);
      return Done;
    }

    method ListByPayer(payer: Address) returns (ids: seq<U64>)
      ensures ids == Index(indexes, PayerIndex(payer))
    {
      ids := GetIndex(PayerIndex(payer));
    }

    method ListByFreelancer(freelancer: Address) returns (ids: seq<U64>)
      ensures ids == Index(indexes, FreelancerIndex(freelancer))
    {
      ids := GetIndex(FreelancerIndex(freelancer));
    }
  }
}
