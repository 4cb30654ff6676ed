/** The factory's event log as a ledger of its own: replayed from nothing it rebuilds the records. */
module FactoryEvents {
  import opened Ledger
  import opened FactorySpec
  import opened FactoryInvariants

  datatype Stage = Held | Paid | Returned

  datatype Entry = Entry(payer: Address, freelancer: Address, amount: I128, stage: Stage)

  /** One event's effect on what has been replayed so far; nothing if the event is out of order,
      repeated, or names the wrong party or amount. */
  function ReplayOne(m: map<U64, Entry>, e: Event): Option<map<U64, Entry>> {
    match e
    case EscrowCreated(id, payer, freelancer, amount) =>
      if id in m then None else Some(m[id := Entry(payer, freelancer, amount, Held)])
    case PaymentReleased(id, freelancer, amount) =>
      if id in m && m[id] == Entry(m[id].payer, freelancer, amount, Held) then Some(m[id := m[id].(stage := Paid)])
      else None
    case EscrowCancelled(id, payer, amount) =>
      if id in m && m[id] == Entry(payer, m[id].freelancer, amount, Held) then Some(m[id := m[id].(stage := Returned)])
      else None
  }

  function Replay(events: seq<Event>): Option<map<U64, Entry>> {
    if events == [] then Some(map[])
    else match Replay(events[..|events| - 1])
      case None => None
      case Some(m) => ReplayOne(m, events[|events| - 1])
  }

  function StageOf(status: Status): Stage {
    match status
    case Completed => Paid
    case Cancelled => Returned
    case _ => Held
  }

  function EntryOf(r: Record): Entry { Entry(r.payer, r.freelancer, r.amount, StageOf(r.status)) }

  /** The log is legal and replays to the records. */
  ghost predicate Logged(w: World) {
    var m := Replay(w.events);
    && m.Some?
    && (forall id: U64 :: id in m.value <==> id in w.records)
    && (forall id <- w.records :: m.value[id] == EntryOf(w.records[id]))
  }

  lemma {:induction false} ReplaySnoc(events: seq<Event>, e: Event)
    requires Replay(events).Some?
    ensures Replay(events + [e]) == ReplayOne(Replay(events).value, e)
  {
    assert (events + [e])[..|events|] == events;
  }

  lemma {:induction false} LoggedStep(w: World, s: Step)
    requires Dense(w) && Logged(w)
    ensures Logged(Next(w, s))
  {
    match s.call
    case CallCreate(_, _, _, _, _) => LoggedAfterCreate(w, s);
    case CallSubmitWork(_) =>
    case CallOutside(_, _, _, _) =>
    case _ => LoggedAfterSettling(w, s);
  }

  lemma {:induction false} LoggedAfterCreate(w: World, s: Step)
    requires Dense(w) && Logged(w) && s.call.CallCreate?
    ensures Logged(Next(w, s))
  {
    if Apply(w, s).outcome.Created? {
      CreationUpdates(w, s);
      ReplaySnoc(w.events, EscrowCreated(CurrentId(w), s.call.payer, s.call.freelancer, s.call.amount));
    }
  }

  lemma {:induction false} LoggedAfterSettling(w: World, s: Step)
    requires Dense(w) && Logged(w) && (s.call.CallApprove? || s.call.CallCancel?)
    ensures Logged(Next(w, s))
  {
    if Apply(w, s).outcome.Done? {
      var r, n := w.records[s.call.id], Next(w, s);
      SettlingUpdates(w, s);
      var e := EventsOf(s.call, r)[0];
      ReplaySnoc(w.events, e);
      LoggedAfterUpdate(w, n, e, r.(status := StatusAfter(s.call)));
    }
  }

  lemma {:induction false} LoggedAfterUpdate(w: World, n: World, e: Event, r: Record)
    requires Logged(w) && r.id in w.records && n.records == w.records[r.id := r]
    requires Replay(n.events) == ReplayOne(Replay(w.events).value, e)
    requires ReplayOne(Replay(w.events).value, e) == Some(Replay(w.events).value[r.id := EntryOf(r)])
    ensures Logged(n)
  {
  }

  lemma {:induction false} LoggedAlways(start: World, run: seq<Step>)
    requires Deployed(start) && Unsigned(start.self, run)
    ensures Logged(Run(start, run))
  {
    if run != [] {
      var n := |run| - 1;
      LoggedAlways(start, run[..n]);
      ConsistentAlways(start, run[..n], start.self);
      LoggedStep(Run(start, run[..n]), run[n]);
    }
  }

  // ---------------------------------------------------------------------------------------------
  // What a legal log says

  predicate Creates(e: Event, id: U64) { e.EscrowCreated? && e.id == id }

  predicate Settles(e: Event, id: U64) { !e.EscrowCreated? && e.id == id }

  /** In a log that replays, an id is created at most once, exactly if it has an entry, which keeps the
      parties and the amount it was created with. */
  lemma {:induction false} LegalLogCreatesOnce(events: seq<Event>, id: U64)
    requires Replay(events).Some?
    ensures var m := Replay(events).value;
      && (id in m <==> exists i | 0 <= i < |events| :: Creates(events[i], id))
      && (forall i, j | 0 <= i < j < |events| && Creates(events[i], id) :: !Creates(events[j], id))
      && (forall i | 0 <= i < |events| && Creates(events[i], id) ::
            m[id] == Entry(events[i].payer, events[i].freelancer, events[i].amount, m[id].stage))
  {
    if events != [] {
      var n := |events| - 1;
      LegalLogCreatesOnce(events[..n], id);
      assert forall i | 0 <= i < n :: events[..n][i] == events[i];
    }
  }

  /** It is settled at most once, later than created, exactly if its entry says so, and to the party and
      for the amount of that entry. */
  lemma {:induction false} LegalLogSettlesOnce(events: seq<Event>, id: U64)
    requires Replay(events).Some?
    ensures var m := Replay(events).value;
      && (id in m && m[id].stage != Held <==> exists j | 0 <= j < |events| :: Settles(events[j], id))
      && (forall i, j | 0 <= i < j < |events| && Settles(events[i], id) :: !Settles(events[j], id))
      && (forall j | 0 <= j < |events| && Settles(events[j], id) ::
            exists i | 0 <= i < j :: Creates(events[i], id))
      && (forall j | 0 <= j < |events| && Settles(events[j], id) ::
            && events[j].amount == m[id].amount
            && (events[j].PaymentReleased? ==> m[id].stage == Paid && events[j].freelancer == m[id].freelancer)
            && (events[j].EscrowCancelled? ==> m[id].stage == Returned && events[j].payer == m[id].payer))
  {
    if events != [] {
      var n := |events| - 1;
      LegalLogSettlesOnce(events[..n], id);
      LegalLogCreatesOnce(events[..n], id);
      assert forall i | 0 <= i < n :: events[..n][i] == events[i];
    }
  }

  /** Amounts created less amounts settled. */
  function Outstanding(events: seq<Event>): int {
    if events == [] then 0
    else
      var before, e := Outstanding(events[..|events| - 1]), events[|events| - 1];
      if e.EscrowCreated? then before + e.amount else before - e.amount
  }

  lemma {:induction false} OutstandingSnoc(events: seq<Event>, e: Event)
    ensures Outstanding(events + [e]) == Outstanding(events)
              + if e.EscrowCreated? then e.amount as int else -(e.amount as int)
  {
    assert (events + [e])[..|events|] == events;
  }

  lemma {:induction false} OutstandingStep(w: World, s: Step)
    requires Dense(w)
    ensures Outstanding(Next(w, s).events) - Outstanding(w.events)
              == Obligations(Next(w, s).records, None, CurrentId(Next(w, s)))
                 - Obligations(w.records, None, CurrentId(w))
  {
    if s.call.CallCreate? && Apply(w, s).outcome.Created? {
      CreationUpdates(w, s);
      ObligationsAfterCreation(w, s, None);
      OutstandingSnoc(w.events, EscrowCreated(CurrentId(w), s.call.payer, s.call.freelancer, s.call.amount));
    } else if !s.call.CallOutside? && Apply(w, s).outcome.Done? {
      OutstandingAfterSettling(w, s);
    }
  }

  lemma {:induction false} OutstandingAfterSettling(w: World, s: Step)
    requires Dense(w) && !s.call.CallOutside? && Apply(w, s).outcome.Done?
    ensures Outstanding(Next(w, s).events) - Outstanding(w.events)
              == Obligations(Next(w, s).records, None, CurrentId(Next(w, s)))
                 - Obligations(w.records, None, CurrentId(w))
  {
    SettlingUpdates(w, s);
    ObligationsAfterSettling(w, s, None);
    var events := EventsOf(s.call, w.records[s.call.id]);
    if events == [] {
      assert w.events + [] == w.events;
    } else {
      OutstandingSnoc(w.events, events[0]);
    }
  }

  lemma {:induction false} OutstandingAlways(start: World, run: seq<Step>)
    requires Deployed(start) && Unsigned(start.self, run)
    ensures var w := Run(start, run); Outstanding(w.events) == Obligations(w.records, None, CurrentId(w))
  {
    if run != [] {
      var n := |run| - 1;
      OutstandingAlways(start, run[..n]);
      ConsistentAlways(start, run[..n], start.self);
      OutstandingStep(Run(start, run[..n]), run[n]);
    }
  }

  /** The event log replays to the factory's obligations: it rebuilds payer, freelancer, amount and
      fate of every id; an id has one creation event if it is below the counter and none otherwise;
      it has a settlement event exactly if its record is completed or cancelled; and created less
      settled amounts are the open records' amounts. */
  lemma {:induction false} LogReplaysToObligations(start: World, run: seq<Step>, id: U64)
    requires Deployed(start) && Unsigned(start.self, run)
    ensures var w := Run(start, run); var log := w.events;
      && Logged(w)
      && (id < CurrentId(w) <==> exists i | 0 <= i < |log| :: Creates(log[i], id))
      && (id in w.records && !Open(w.records[id]) <==> exists j | 0 <= j < |log| :: Settles(log[j], id))
      && Outstanding(log) == Obligations(w.records, None, CurrentId(w))
  {
    var w := Run(start, run);
    LoggedAlways(start, run);
    OutstandingAlways(start, run);
    ConsistentAlways(start, run, start.self);
    LegalLogCreatesOnce(w.events, id);
    LegalLogSettlesOnce(w.events, id);
  }
}
