/** The pooled factory against a family of independent escrows, each with its own private vault:
    whatever happens on other ids and other tokens, one id behaves as if it were alone. */
module FactoryRefinement {
  import opened Ledger
  import opened FactorySpec
  import opened FactoryInvariants

  /** A single escrow and the tokens locked for it alone. */
  datatype Single = Single(record: Option<Record>, vault: nat)

  datatype SingleCall =
    | Found(record: Record)
    | Submit(signers: set<Address>)
    | Release(signers: set<Address>)
    | Withdraw(signers: set<Address>)

  datatype Payment = Payment(token: Address, to: Address, amount: int)

  datatype Answer = Answer(outcome: Outcome, paid: Option<Payment>)

  datatype Reaction = Reaction(single: Single, answer: Answer)

  /** Pays the whole amount out of the private vault, or fails if it is short. */
  function PayOut(s: Single, r: Record, to: Address, status: Status): Reaction {
    if r.amount < 0 || s.vault < r.amount then Reaction(s, Answer(Panic, None))
    else Reaction(Single(Some(r.(status := status)), s.vault - r.amount),
                  Answer(Done, Some(Payment(r.token, to, r.amount))))
  }

  /** The isolated escrow: created once, with a positive amount that goes into its vault; submitted by
      the freelancer, then released or, before submission, withdrawn by the payer. */
  function React(s: Single, c: SingleCall): Reaction {
    match c
    case Found(r) =>
      if s.record.Some? || r.amount <= 0 || r.status != Active then Reaction(s, Answer(Panic, None))
      else Reaction(Single(Some(r), s.vault + r.amount), Answer(Created(r.id), None))
    case _ =>
      if s.record.None? then Reaction(s, Answer(Err(NotFound), None))
      else
        var r := s.record.value;
        match c
        case Submit(signers) =>
          if r.status != Active then Reaction(s, Answer(Err(NotActive), None))
          else if r.freelancer !in signers then Reaction(s, Answer(Panic, None))
          else Reaction(s.(record := Some(r.(status := WorkSubmitted))), Answer(Done, None))
        case Release(signers) =>
          if r.status != WorkSubmitted then Reaction(s, Answer(Err(FactoryError.WorkNotSubmitted), None))
          else if r.payer !in signers then Reaction(s, Answer(Panic, None))
          else PayOut(s, r, r.freelancer, Completed)
        case Withdraw(signers) =>
          if r.status != Active then Reaction(s, Answer(Err(NotActive), None))
          else if r.payer !in signers then Reaction(s, Answer(Panic, None))
          else PayOut(s, r, r.payer, Cancelled)
  }

  function SingleRun(s: Single, calls: seq<SingleCall>): Single {
    if calls == [] then s else React(SingleRun(s, calls[..|calls| - 1]), calls[|calls| - 1]).single
  }

  function Answers(s: Single, calls: seq<SingleCall>): seq<Answer> {
    if calls == [] then []
    else
      var n := |calls| - 1;
      Answers(s, calls[..n]) + [React(SingleRun(s, calls[..n]), calls[n]).answer]
  }

  function PaidOut(answers: seq<Answer>): int {
    if answers == [] then 0
    else
      var last := answers[|answers| - 1];
      PaidOut(answers[..|answers| - 1]) + if last.paid.Some? then last.paid.value.amount else 0
  }

  /** The isolated escrow conserves its money, whatever is called: it holds its amount while it is open,
      and once it is settled it has paid exactly that amount, no more and no less. */
  lemma {:induction false} SingleConserves(calls: seq<SingleCall>)
    ensures var z := SingleRun(Single(None, 0), calls); var paid := PaidOut(Answers(Single(None, 0), calls));
      match z.record
      case None => z.vault == 0 && paid == 0
      case Some(r) =>
        && r.amount > 0
        && (if Open(r) then z.vault == r.amount && paid == 0 else z.vault == 0 && paid == r.amount)
  {
    if calls != [] {
      var n := |calls| - 1;
      SingleConserves(calls[..n]);
      var before := Answers(Single(None, 0), calls[..n]);
      var last := React(SingleRun(Single(None, 0), calls[..n]), calls[n]).answer;
      assert (before + [last])[..|before|] == before;
    }
  }

  // ---------------------------------------------------------------------------------------------
  // Projection of the pool onto one id

  /** What one id looks like from inside: its record and, while it is open, its amount. */
  function Project(w: World, id: U64): Single {
    if id !in w.records then Single(None, 0)
    else
      var r := w.records[id];
      Single(Some(r), if Open(r) && r.amount >= 0 then r.amount else 0)
  }

  /** The part of a step that concerns one id: a call naming it, or the creation that produced it. */
  function CallOn(w: World, s: Step, id: U64): Option<SingleCall> {
    match s.call
    case CallCreate(payer, freelancer, token, amount, milestone) =>
      if Apply(w, s).outcome == Created(id) then
        Some(Found(Record(id, payer, freelancer, token, amount, milestone, Active)))
      else None
    case CallSubmitWork(i) => if i == id then Some(Submit(s.signers)) else None
    case CallApprove(i) => if i == id then Some(Release(s.signers)) else None
    case CallCancel(i) => if i == id then Some(Withdraw(s.signers)) else None
    case CallOutside(_, _, _, _) => None
  }

  /** What the pool answered: the outcome, and the payment it made out of the vault. */
  function PoolAnswer(w: World, s: Step): Answer {
    var n := Next(w, s);
    var paid := if |n.bank.log| > |w.bank.log| && n.bank.log[|w.bank.log|].memo in {Payout, Refund} then
                  Some(Payment(n.bank.log[|w.bank.log|].token, n.bank.log[|w.bank.log|].dst,
                          n.bank.log[|w.bank.log|].amount))
                else None;
    Answer(Apply(w, s).outcome, paid)
  }

  function CallsOn(w: World, run: seq<Step>, id: U64): seq<SingleCall> {
    if run == [] then []
    else
      var n := |run| - 1;
      var c := CallOn(Run(w, run[..n]), run[n], id);
      CallsOn(w, run[..n], id) + if c.Some? then [c.value] else []
  }

  function AnswersOn(w: World, run: seq<Step>, id: U64): seq<Answer> {
    if run == [] then []
    else
      var n := |run| - 1;
      var y := Run(w, run[..n]);
      AnswersOn(w, run[..n], id) + if CallOn(y, run[n], id).Some? then [PoolAnswer(y, run[n])] else []
  }

  /** One step: a call on the id is answered as the isolated escrow answers it; any other step leaves
      the id alone. */
  lemma {:induction false} StepRefines(w: World, s: Step, id: U64)
    requires Dense(w)
    requires id in w.records && Open(w.records[id]) ==>
               w.records[id].amount <= Balance(w.bank, w.records[id].token, w.self)
    ensures var c := CallOn(w, s, id);
      if c.Some? then React(Project(w, id), c.value) == Reaction(Project(Next(w, s), id), PoolAnswer(w, s))
      else Project(Next(w, s), id) == Project(w, id)
  {
  }

  /** The refinement, over whole runs: the calls on one id, replayed on an isolated escrow with a
      private vault, end in the same record and holdings, with the same result for every call and
      the same payments, whatever else happened in the pool. */
  lemma {:induction false} PoolRefinesSingles(start: World, run: seq<Step>, id: U64)
    requires Deployed(start) && Unsigned(start.self, run)
    ensures SingleRun(Single(None, 0), CallsOn(start, run, id)) == Project(Run(start, run), id)
    ensures Answers(Single(None, 0), CallsOn(start, run, id)) == AnswersOn(start, run, id)
  {
    if run != [] {
      var n := |run| - 1;
      PoolRefinesSingles(start, run[..n], id);
      ConsistentAlways(start, run[..n], start.self);
      VaultCoversEach(start, run[..n], id);
      StepRefines(Run(start, run[..n]), run[n], id);
      var c := CallOn(Run(start, run[..n]), run[n], id);
      var before := CallsOn(start, run[..n], id);
      if c.Some? {
        assert (before + [c.value])[..|before|] == before;
      } else {
        assert CallsOn(start, run, id) == before;
        assert AnswersOn(start, run, id) == AnswersOn(start, run[..n], id);
      }
    }
  }

  /** So the pool pays for each id exactly its amount, once, and only when the record says so. */
  lemma {:induction false} EachIdIsPaidOnce(start: World, run: seq<Step>, id: U64)
    requires Deployed(start) && Unsigned(start.self, run)
    ensures var w := Run(start, run); var paid := PaidOut(AnswersOn(start, run, id));
      paid == if id in w.records && !Open(w.records[id]) then w.records[id].amount else 0
  {
    PoolRefinesSingles(start, run, id);
    SingleConserves(CallsOn(start, run, id));
  }
}
