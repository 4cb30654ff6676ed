/** What every reachable factory state satisfies: dense ids, a solvent pooled vault, indexes that
    agree with the records. */
module FactoryInvariants {
  import opened Ledger
  import opened FactorySpec

  predicate Open(r: Record) { r.status == Active || r.status == WorkSubmitted }

  /** What record `id` obliges the vault to in one token, or in any token if none is given. */
  function Obligation(records: map<U64, Record>, token: Option<Address>, id: U64): int {
    if id in records && Open(records[id]) && (token.None? || records[id].token == token.value)
    then records[id].amount else 0
  }

  /** The obligations of the ids below `n`. */
  function Obligations(records: map<U64, Record>, token: Option<Address>, n: U64): int {
    if n == 0 then 0 else Obligations(records, token, n - 1) + Obligation(records, token, n - 1)
  }

  lemma {:induction false} ObligationsAfterUpdate(records: map<U64, Record>, token: Option<Address>, n: U64,
                                                  id: U64, r: Record)
    ensures Obligations(records[id := r], token, n)
              == Obligations(records, token, n)
                 + if id < n then Obligation(records[id := r], token, id) - Obligation(records, token, id) else 0
  {
    if n > 0 { ObligationsAfterUpdate(records, token, n - 1, id, r); }
  }

  lemma {:induction false} ObligationsCoverEach(records: map<U64, Record>, token: Option<Address>, n: U64, id: U64)
    requires forall i <- records :: records[i].amount > 0
    ensures Obligations(records, token, n) >= 0
    ensures id < n ==> Obligation(records, token, id) <= Obligations(records, token, n)
  {
    if n > 0 { ObligationsCoverEach(records, token, n - 1, id); }
  }

  // ---------------------------------------------------------------------------------------------
  // Ids

  /** Exactly the ids below the counter are taken, each by a record that carries it and a positive
      amount. */
  ghost predicate Dense(w: World) {
    && (forall id: U64 :: id in w.records <==> id < CurrentId(w))
    && (forall id <- w.records :: w.records[id].id == id && w.records[id].amount > 0)
  }

  lemma {:induction false} DenseStep(w: World, s: Step)
    requires Dense(w)
    ensures Dense(Next(w, s)) && Next(w, s).self == w.self
  {
  }

  /** What a successful creation changes. */
  lemma {:induction false} CreationUpdates(w: World, s: Step)
    requires s.call.CallCreate? && !Apply(w, s).outcome.Err? && !Apply(w, s).outcome.Panic?
    ensures var c, n, k := s.call, Next(w, s), CurrentId(w);
      && CurrentId(n) == k + 1 && c.amount > 0 && c.payer in s.signers
      && n.records == w.records[k := Record(k, c.payer, c.freelancer, c.token, c.amount, c.milestone, Active)]
      && n.events == w.events + [EscrowCreated(k, c.payer, c.freelancer, c.amount)]
  {
  }

  function StatusAfter(c: Call): Status {
    match c
    case CallApprove(_) => Completed
    case CallCancel(_) => Cancelled
    case _ => WorkSubmitted
  }

  function EventsOf(c: Call, r: Record): seq<Event> {
    match c
    case CallApprove(_) => [PaymentReleased(r.id, r.freelancer, r.amount)]
    case CallCancel(_) => [EscrowCancelled(r.id, r.payer, r.amount)]
    case _ => []
  }

  /** What a successful submission, approval or cancellation changes: one open record's status. */
  lemma {:induction false} SettlingUpdates(w: World, s: Step)
    requires Dense(w) && !s.call.CallOutside? && Apply(w, s).outcome.Done?
    ensures !s.call.CallCreate? && s.call.id in w.records
    ensures var n, r := Next(w, s), w.records[s.call.id];
      && r.id == s.call.id < CurrentId(w) == CurrentId(n)
      && Open(r)
      && n.records == w.records[r.id := r.(status := StatusAfter(s.call))]
      && n.indexes == w.indexes
      && n.events == w.events + EventsOf(s.call, r)
  {
  }

  // ---------------------------------------------------------------------------------------------
  // Solvency

  /** What the vault received by deposits less what it sent. */
  function Backing(log: seq<Movement>, t: Address, vault: Address): int {
    Moved(log, Flow(t, vault)) - Moved(log, Gift(t, vault))
  }

  ghost predicate SolventIn(w: World, t: Address) {
    Backing(w.bank.log, t, w.self) == Obligations(w.records, Some(t), CurrentId(w))
  }

  /** In every token the vault's deposits less its payments are the open obligations. */
  ghost predicate Solvent(w: World) { forall t :: SolventIn(w, t) }

  /** The transfer a call makes, if any. */
  function Move(w: World, s: Step): Option<Movement> {
    if Apply(w, s).outcome.Err? || Apply(w, s).outcome.Panic? then None
    else match s.call
      case CallCreate(payer, _, token, amount, _) => Some(Movement(token, payer, w.self, amount, Deposit))
      case CallSubmitWork(_) => None
      case CallApprove(id) =>
        var r := w.records[id];
        Some(Movement(r.token, w.self, r.freelancer, r.amount, Payout))
      case CallCancel(id) =>
        var r := w.records[id];
        Some(Movement(r.token, w.self, r.payer, r.amount, Refund))
      case CallOutside(tok, src, dst, units) => Some(Movement(tok, src, dst, units, Outside))
  }

  lemma {:induction false} LogGrowsByMove(w: World, s: Step, t: Address, a: Address)
    ensures Next(w, s).bank.log == w.bank.log + (if Move(w, s).Some? then [Move(w, s).value] else [])
    ensures Opening(Next(w, s).bank, t, a) == Opening(w.bank, t, a)
  {
    if Move(w, s).Some? {
      var m := Move(w, s).value;
      assert Next(w, s).bank == Transfer(w.bank, m.token, m.src, m.dst, m.amount, m.memo).value;
      TransferKeepsOpening(w.bank, m.token, m.src, m.dst, m.amount, m.memo, t, a);
    }
  }

  lemma {:induction false} BackingAfter(w: World, s: Step, t: Address)
    ensures Backing(Next(w, s).bank.log, t, w.self) == Backing(w.bank.log, t, w.self)
              + if Move(w, s).Some? then Weight(Flow(t, w.self), Move(w, s).value)
                      - Weight(Gift(t, w.self), Move(w, s).value)
                else 0
  {
    LogGrowsByMove(w, s, t, w.self);
    if Move(w, s).Some? {
      MovedSnoc(w.bank.log, Move(w, s).value, Flow(t, w.self));
      MovedSnoc(w.bank.log, Move(w, s).value, Gift(t, w.self));
    } else {
      assert w.bank.log + [] == w.bank.log;
    }
  }

  lemma {:induction false} ObligationsStep(w: World, s: Step, t: Address)
    requires Dense(w) && w.self !in s.signers
    ensures Obligations(Next(w, s).records, Some(t), CurrentId(Next(w, s)))
              == Obligations(w.records, Some(t), CurrentId(w))
                 + if Move(w, s).Some? then Weight(Flow(t, w.self), Move(w, s).value)
                      - Weight(Gift(t, w.self), Move(w, s).value)
                   else 0
  {
    if s.call.CallCreate? && Apply(w, s).outcome.Created? {
      ObligationsAfterCreation(w, s, Some(t));
    } else if !s.call.CallOutside? && Apply(w, s).outcome.Done? {
      ObligationsAfterSettling(w, s, Some(t));
    }
  }

  lemma {:induction false} ObligationsAfterCreation(w: World, s: Step, token: Option<Address>)
    requires Dense(w) && s.call.CallCreate? && Apply(w, s).outcome.Created?
    ensures Obligations(Next(w, s).records, token, CurrentId(Next(w, s)))
              == Obligations(w.records, token, CurrentId(w))
                 + if token.Some? && token.value != s.call.token then 0 else s.call.amount
  {
    var k := CurrentId(w);
    CreationUpdates(w, s);
    ObligationsAfterUpdate(w.records, token, k, k, Next(w, s).records[k]);
  }

  lemma {:induction false} ObligationsAfterSettling(w: World, s: Step, token: Option<Address>)
    requires Dense(w) && !s.call.CallOutside? && Apply(w, s).outcome.Done?
    ensures !s.call.CallCreate? && s.call.id in w.records
    ensures var r := w.records[s.call.id];
      Obligations(Next(w, s).records, token, CurrentId(Next(w, s)))
        == Obligations(w.records, token, CurrentId(w))
           - if s.call.CallSubmitWork? || (token.Some? && token.value != r.token) then 0 else r.amount
  {
    SettlingUpdates(w, s);
    ObligationsAfterUpdate(w.records, token, CurrentId(w), s.call.id, Next(w, s).records[s.call.id]);
  }

  // ---------------------------------------------------------------------------------------------
  // Indexes

  predicate Matches(r: Record, key: Key) {
    match key
    case PayerIndex(who) => r.payer == who
    case FreelancerIndex(who) => r.freelancer == who
  }

  /** The ids below `n` whose record matches a key, in ascending order. */
  function Matching(records: map<U64, Record>, key: Key, n: U64): seq<U64> {
    if n == 0 then []
    else Matching(records, key, n - 1) + if n - 1 in records && Matches(records[n - 1], key) then [n - 1] else []
  }

  /** Strictly ascending, so without duplicates, and below the bound. */
  predicate Ascending(ids: seq<U64>, bound: int) {
    && (forall i | 0 <= i < |ids| :: ids[i] < bound)
    && (forall i, j | 0 <= i < j < |ids| :: ids[i] < ids[j])
  }

  lemma {:induction false} MatchingAscends(records: map<U64, Record>, key: Key, n: U64)
    ensures Ascending(Matching(records, key, n), n)
  {
    if n > 0 {
      MatchingAscends(records, key, n - 1);
      var before: seq<U64> := Matching(records, key, n - 1);
      assert Ascending(before, n - 1);
      assert Ascending(before + [n - 1], n);
      assert Ascending(before, n);
      assert Matching(records, key, n) == before || Matching(records, key, n) == before + [n - 1];
    }
  }

  lemma {:induction false} MatchingIsTheFilter(records: map<U64, Record>, key: Key, n: U64, id: U64)
    ensures id in Matching(records, key, n) <==> id < n && id in records && Matches(records[id], key)
  {
    if n > 0 { MatchingIsTheFilter(records, key, n - 1, id); }
  }

  /** Changing a record's status, or adding one at or above `n`, does not change the filter. */
  lemma {:induction false} MatchingAfterUpdate(records: map<U64, Record>, key: Key, n: U64, id: U64, r: Record)
    requires id < n ==> id in records && (Matches(r, key) <==> Matches(records[id], key))
    ensures Matching(records[id := r], key, n) == Matching(records, key, n)
  {
    if n > 0 { MatchingAfterUpdate(records, key, n - 1, id, r); }
  }

  ghost predicate Indexed(w: World) {
    forall key :: Index(w.indexes, key) == Matching(w.records, key, CurrentId(w))
  }

  lemma {:induction false} IndexedStepFor(w: World, s: Step, key: Key)
    requires Dense(w) && Indexed(w)
    ensures Index(Next(w, s).indexes, key) == Matching(Next(w, s).records, key, CurrentId(Next(w, s)))
  {
    assert Index(w.indexes, key) == Matching(w.records, key, CurrentId(w));
    if Apply(w, s).outcome.Created? {
      IndexedAfterCreate(w, s, key);
    } else if Apply(w, s).outcome.Done? && !s.call.CallOutside? {
      SettlingUpdates(w, s);
      MatchingAfterUpdate(w.records, key, CurrentId(w), s.call.id, Next(w, s).records[s.call.id]);
    }
  }

  lemma {:induction false} IndexedAfterCreate(w: World, s: Step, key: Key)
    requires Dense(w) && Indexed(w) && s.call.CallCreate? && Apply(w, s).outcome.Created?
    ensures Index(Next(w, s).indexes, key) == Matching(Next(w, s).records, key, CurrentId(Next(w, s)))
  {
    var k, n := CurrentId(w), Next(w, s);
    assert Index(w.indexes, key) == Matching(w.records, key, k);
    CreationUpdates(w, s);
    MatchingAfterUpdate(w.records, key, k, k, n.records[k]);
    assert Index(n.indexes, key) == Index(w.indexes, key) + if Matches(n.records[k], key) then [k] else [];
  }

  // ---------------------------------------------------------------------------------------------
  // Every reachable state

  ghost predicate Consistent(w: World) {
    Dense(w) && Solvent(w) && Indexed(w)
  }

  lemma {:induction false} ConsistentStep(w: World, s: Step)
    requires Consistent(w) && w.self !in s.signers
    ensures Consistent(Next(w, s)) && Next(w, s).self == w.self
  {
    DenseStep(w, s);
    forall t ensures SolventIn(Next(w, s), t) {
      assert SolventIn(w, t);
      BackingAfter(w, s, t);
      ObligationsStep(w, s, t);
    }
    forall key ensures Index(Next(w, s).indexes, key) == Matching(Next(w, s).records, key, CurrentId(Next(w, s))) {
      IndexedStepFor(w, s, key);
    }
  }

  lemma {:induction false} ConsistentAlways(start: World, run: seq<Step>, t: Address)
    requires Deployed(start) && Unsigned(start.self, run)
    ensures Consistent(Run(start, run)) && Run(start, run).self == start.self
    ensures Opening(Run(start, run).bank, t, start.self) == Balance(start.bank, t, start.self)
  {
    if run != [] {
      var n := |run| - 1;
      ConsistentAlways(start, run[..n], t);
      assert run[n] in run;
      ConsistentStep(Run(start, run[..n]), run[n]);
      LogGrowsByMove(Run(start, run[..n]), run[n], t, start.self);
    }
  }

  /** Pooled solvency: in every reachable state and every token the vault holds exactly the amounts
      of all open records in that token, plus what it held at deployment, plus what reached it
      otherwise than by a deposit (outside transfers, or a payout to the factory's own address). */
  lemma {:induction false} PooledSolvency(start: World, run: seq<Step>, t: Address)
    requires Deployed(start) && Unsigned(start.self, run)
    ensures var w := Run(start, run);
      && Balance(w.bank, t, w.self) == Obligations(w.records, Some(t), CurrentId(w))
           + Balance(start.bank, t, start.self) + Moved(w.bank.log, Gift(t, start.self))
      && Balance(w.bank, t, w.self) >= Obligations(w.records, Some(t), CurrentId(w))
  {
    ConsistentAlways(start, run, t);
    assert SolventIn(Run(start, run), t);
    GiftsArePositive(Run(start, run).bank.log, t, start.self);
  }

  /** The vault can pay any single open record. */
  lemma {:induction false} VaultCoversEach(start: World, run: seq<Step>, id: U64)
    requires Deployed(start) && Unsigned(start.self, run)
    ensures var w := Run(start, run);
      && w.self == start.self
      && (id in w.records && Open(w.records[id]) ==>
            0 < w.records[id].amount <= Balance(w.bank, w.records[id].token, w.self))
  {
    var w := Run(start, run);
    ConsistentAlways(start, run, start.self);
    if id in w.records && Open(w.records[id]) {
      var t := w.records[id].token;
      PooledSolvency(start, run, t);
      ObligationsCoverEach(w.records, Some(t), CurrentId(w), id);
    }
  }

  /** So a call succeeds exactly when the record exists, is in the right state and the right party
      signed; the vault is never short. The money goes to the freelancer or back to the payer. */
  lemma {:induction false} SettlingSucceedsIff(start: World, run: seq<Step>, id: U64, signers: set<Address>, a: Address)
    requires Deployed(start) && Unsigned(start.self, run)
    ensures var w := Run(start, run); var r := if id in w.records then Some(w.records[id]) else None;
      && (Approve(w, id, signers).outcome == Done <==>
            r.Some? && r.value.status == WorkSubmitted && r.value.payer in signers)
      && (Cancel(w, id, signers).outcome == Done <==>
            r.Some? && r.value.status == Active && r.value.payer in signers)
      && (SubmitWork(w, id, signers).outcome == Done <==>
            r.Some? && r.value.status == Active && r.value.freelancer in signers)
      && (Approve(w, id, signers).outcome == Done ==>
            Balance(Approve(w, id, signers).world.bank, r.value.token, a)
              == Balance(w.bank, r.value.token, a) + (if a == r.value.freelancer then r.value.amount else 0)
                 - (if a == w.self then r.value.amount else 0))
      && (Cancel(w, id, signers).outcome == Done ==>
            Balance(Cancel(w, id, signers).world.bank, r.value.token, a)
              == Balance(w.bank, r.value.token, a) + (if a == r.value.payer then r.value.amount else 0)
                 - (if a == w.self then r.value.amount else 0))
  {
    VaultCoversEach(start, run, id);
  }

  /** A creation succeeds exactly if the amount is positive, the payer signed and can pay, and ids are
      left; it takes an id nobody had, moves exactly the amount into the vault, and touches no other
      record. */
  lemma {:induction false} CreateSucceedsIff(start: World, run: seq<Step>, s: Step, t: Address, a: Address)
    requires Deployed(start) && Unsigned(start.self, run) && s.call.CallCreate? && start.self !in s.signers
    ensures var w := Run(start, run); var c, n := s.call, Next(w, s);
      && (Apply(w, s).outcome.Created? <==>
            && c.amount > 0 && c.payer in s.signers && Balance(w.bank, c.token, c.payer) >= c.amount
            && |w.records| < U64_MAX)
      && (Apply(w, s).outcome.Created? ==>
            && Apply(w, s).outcome.id !in w.records
            && n.records.Keys == w.records.Keys + {Apply(w, s).outcome.id}
            && (forall id <- w.records :: n.records[id] == w.records[id])
            && Balance(n.bank, t, a) == Balance(w.bank, t, a)
                 + (if t == c.token && a == w.self then c.amount else 0)
                 - (if t == c.token && a == c.payer then c.amount else 0))
  {
    var w := Run(start, run);
    ConsistentAlways(start, run, t);
    RecordCount(w);
    if Apply(w, s).outcome.Created? { CreationUpdates(w, s); }
  }

  /** There are as many records as ids handed out. */
  lemma {:induction false} RecordCount(w: World)
    requires Dense(w)
    ensures |w.records| == CurrentId(w)
  {
    BelowIsAll(CurrentId(w));
    assert w.records.Keys == Below(CurrentId(w));
  }

  ghost function Below(n: U64): set<U64> {
    if n == 0 then {} else Below(n - 1) + {n - 1}
  }

  lemma {:induction false} BelowIsAll(n: U64)
    ensures |Below(n)| == n
    ensures forall id: U64 :: id in Below(n) <==> id < n
  {
    if n > 0 {
      BelowIsAll(n - 1);
      assert n - 1 !in Below(n - 1);
    }
  }

  /** Index agreement: each list is the strictly ascending list of exactly the ids below the counter
      whose record names that party. In particular every id is in exactly one payer's list. */
  lemma {:induction false} ListsAgree(start: World, run: seq<Step>, who: Address, id: U64)
    requires Deployed(start) && Unsigned(start.self, run)
    ensures var w := Run(start, run);
      var mine, theirs := Index(w.indexes, PayerIndex(who)), Index(w.indexes, FreelancerIndex(who));
      && Ascending(mine, CurrentId(w)) && Ascending(theirs, CurrentId(w))
      && (id < CurrentId(w) <==> id in w.records)
      && (id in mine <==> id in w.records && w.records[id].payer == who)
      && (id in theirs <==> id in w.records && w.records[id].freelancer == who)
  {
    var w := Run(start, run);
    ConsistentAlways(start, run, start.self);
    MatchingAscends(w.records, PayerIndex(who), CurrentId(w));
    MatchingAscends(w.records, FreelancerIndex(who), CurrentId(w));
    MatchingIsTheFilter(w.records, PayerIndex(who), CurrentId(w), id);
    MatchingIsTheFilter(w.records, FreelancerIndex(who), CurrentId(w), id);
  }

  /** What each error answer of the factory means, for every call in every world, both ways. */
  lemma {:induction false} ErrorsMeanWhatTheySay(w: World, s: Step, e: FactoryError)
    ensures Apply(w, s).outcome == Err(e) <==>
      match s.call
      case CallOutside(_, _, _, _) => false
      case CallCreate(_, _, _, amount, _) => e == InvalidAmount && amount <= 0
      case _ =>
        && (s.call.id !in w.records <==> e == NotFound)
        && (s.call.id in w.records ==>
              var status := w.records[s.call.id].status;
              if s.call.CallApprove? then e == FactoryError.WorkNotSubmitted && status != WorkSubmitted
              else e == NotActive && status != Active)
    ensures Apply(w, s).outcome.Err? || Apply(w, s).outcome.Panic? ==> Next(w, s) == w
  {
  }

  /** Over every run a record keeps its parties, token, amount and description, and moves from active to
      submitted to completed, or from active to cancelled, and never back. */
  lemma {:induction false} RecordsOnlyAdvance(w: World, run: seq<Step>, id: U64)
    requires Dense(w) && id in w.records
    ensures var z := Run(w, run);
      && Dense(z) && id in z.records
      && var r, after := w.records[id], z.records[id];
      && after == r.(status := after.status)
      && (after.status != r.status ==>
            match r.status
            case Active => true
            case WorkSubmitted => after.status == Completed
            case _ => false)
  {
    if run != [] {
      var n := |run| - 1;
      RecordsOnlyAdvance(w, run[..n], id);
      DenseStep(Run(w, run[..n]), run[n]);
    }
  }
}
