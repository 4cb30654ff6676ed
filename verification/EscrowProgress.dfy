/** Termination, independence of the milestone order, and who had to sign for a payment. */
module EscrowProgress {
  import opened Ledger
  import opened EscrowSpec
  import opened EscrowSums
  import opened EscrowMoney
  import opened EscrowSettlement
  import opened EscrowClosedWorld
  import opened EscrowTiming

  // ---------------------------------------------------------------------------------------------
  // Termination

  predicate Advances(w: World, s: Step) {
    (s.call.CallSubmitWork? || s.call.CallApprove?) && Apply(w, s).outcome.Ok?
  }

  predicate Closes(w: World, s: Step) {
    (s.call.CallCancel? || s.call.CallExpire?) && Apply(w, s).outcome.Ok?
  }

  /** The number of successful submit and approve steps of a run. */
  function AdvanceCount(w: World, run: seq<Step>): nat {
    if run == [] then 0
    else AdvanceCount(w, run[..|run| - 1]) + if Advances(Run(w, run[..|run| - 1]), run[|run| - 1]) then 1 else 0
  }

  function CloseCount(w: World, run: seq<Step>): nat {
    if run == [] then 0
    else CloseCount(w, run[..|run| - 1]) + if Closes(Run(w, run[..|run| - 1]), run[|run| - 1]) then 1 else 0
  }

  function StepsLeft(w: World): int
    requires w.escrow.Some?
  {
    Total(Progress, w.escrow.value.milestones)
  }

  lemma {:induction false} ProgressStep(w: World, s: Step)
    requires w.escrow.Some?
    ensures Next(w, s).escrow.Some?
    ensures |Next(w, s).escrow.value.milestones| == |w.escrow.value.milestones|
    ensures StepsLeft(Next(w, s)) == StepsLeft(w) - if Advances(w, s) then 1 else 0
    ensures w.escrow.value.status != Active ==> Next(w, s).escrow.value.status != Active
    ensures Closes(w, s) ==> w.escrow.value.status == Active && Next(w, s).escrow.value.status != Active
  {
    if Advances(w, s) {
      var ms := w.escrow.value.milestones;
      TotalAfterUpdate(Progress, ms, s.call.idx,
        ms[s.call.idx].(status := if s.call.CallSubmitWork? then Submitted else Approved));
    }
  }

  /** Each successful submit or approve uses up exactly one of the steps the milestones have left,
      nothing else does, so n milestones allow at most 2n of them; and a run closes an escrow by
      `cancel` or `expire` at most once. In any world, from any record. */
  lemma {:induction false} RunsTerminate(w: World, run: seq<Step>)
    requires w.escrow.Some?
    ensures Run(w, run).escrow.Some?
    ensures AdvanceCount(w, run) == StepsLeft(w) - StepsLeft(Run(w, run))
    ensures AdvanceCount(w, run) <= 2 * |w.escrow.value.milestones|
    ensures CloseCount(w, run) <= 1
    ensures CloseCount(w, run) == 1 || w.escrow.value.status != Active ==> Run(w, run).escrow.value.status != Active
    ensures w.escrow.value.status != Active ==> CloseCount(w, run) == 0
    ensures |Run(w, run).escrow.value.milestones| == |w.escrow.value.milestones|
  {
    if run != [] {
      var n := |run| - 1;
      RunsTerminate(w, run[..n]);
      ProgressStep(Run(w, run[..n]), run[n]);
    }
    ProgressBounds(w.escrow.value.milestones);
    ProgressBounds(Run(w, run).escrow.value.milestones);
  }

  // ---------------------------------------------------------------------------------------------
  // Order independence

  function FeeRate(w: World): U32 { if w.config.Some? then w.config.value.feeBps else 0 }

  function DueColumn(w: World, a: Address): Column
    requires w.escrow.Some?
  {
    Due(FeeRate(w), w.self, Collector(w), w.escrow.value.freelancer, a)
  }

  /** What `a` will hold of the escrow's token once every milestone is paid. */
  function FinalBalance(w: World, a: Address): int
    requires w.escrow.Some?
  {
    Balance(w.bank, w.escrow.value.token, a) + Total(DueColumn(w, a), w.escrow.value.milestones)
  }

  /** A call of the contract other than a change of freelancer. */
  predicate Ordinary(s: Step) { !s.call.CallTransferFreelancer? && !s.call.CallOutside? }

  /** The config is there already, or the run does not set it. */
  predicate FeeIsFixed(w: World, run: seq<Step>) {
    w.config.Some? || forall s <- run :: !s.call.CallInit?
  }

  /** Fee rate, collector, freelancer, token and vault are the same after an ordinary call. */
  lemma {:induction false} DueColumnKept(w: World, s: Step, a: Address)
    requires w.escrow.Some? && Ordinary(s) && (w.config.Some? || !s.call.CallInit?)
    ensures var n := Next(w, s);
      && n.config.Some? == w.config.Some? && n.escrow.Some?
      && n.escrow.value.token == w.escrow.value.token
      && DueColumn(n, a) == DueColumn(w, a)
  {
  }

  lemma {:induction false} FinalBalanceStep(w: World, s: Step, a: Address)
    requires WellFormed(w) && w.escrow.Some?
    requires Ordinary(s) && !Closes(w, s) && (w.config.Some? || !s.call.CallInit?)
    requires Next(w, s).escrow.Some? && Next(w, s).escrow.value.releasesMade == 0
    ensures FinalBalance(Next(w, s), a) == FinalBalance(w, a)
  {
    DueColumnKept(w, s, a);
    if Advances(w, s) {
      FinalBalanceAdvance(w, s, a);
    } else {
      LogGrowsByMoves(w, s, w.escrow.value.token, a);
      MovedByMoves(w, s, Flow(w.escrow.value.token, a));
    }
  }

  lemma {:induction false} ApprovePaysTheDue(w: World, idx: U32, env: Env, a: Address)
    requires WellFormed(w) && Approve(w, idx, env).outcome.Ok?
    ensures var d := w.escrow.value;
      Balance(Approve(w, idx, env).world.bank, d.token, a)
        == Balance(w.bank, d.token, a) + Entry(DueColumn(w, a), d.milestones[idx])
  {
    ApproveMovesMoney(w, idx, env, w.escrow.value.token, a);
    if w.config.None? { assert FeeOf(w.escrow.value.milestones[idx].amount, 0) == 0; }
  }

  lemma {:induction false} FinalBalanceAdvance(w: World, s: Step, a: Address)
    requires WellFormed(w) && Advances(w, s)
    requires Next(w, s).escrow.Some? && DueColumn(Next(w, s), a) == DueColumn(w, a)
    ensures FinalBalance(Next(w, s), a) == FinalBalance(w, a)
  {
    var ms := w.escrow.value.milestones;
    if s.call.CallApprove? {
      ApprovePaysTheDue(w, s.call.idx, s.env, a);
      TotalAfterUpdate(DueColumn(w, a), ms, s.call.idx, ms[s.call.idx].(status := Approved));
    } else {
      SubmittedTotals(DueColumn(w, a), ms, s.call.idx);
    }
  }

  /** If the last world is not closed and has made no release, neither had the one before it. */
  lemma {:induction false} OpenBefore(w: World, run: seq<Step>)
    requires Settled(w) && Unsigned(w.self, run) && run != []
    requires forall s <- run :: Apart(w.self, s) && CreatesUnapproved(s)
    requires w.escrow.Some?
    requires Run(w, run).escrow.Some? && !Closed(Run(w, run).escrow.value) && Run(w, run).escrow.value.releasesMade == 0
    ensures var y := Run(w, run[..|run| - 1]);
      && WellFormed(y) && y.escrow.Some? && y.escrow.value.releasesMade == 0
      && !Closed(y.escrow.value) && !Closes(y, run[|run| - 1])
  {
    var n := |run| - 1;
    assert run[n] in run;
    SettledFrom(w, run[..n]);
    Schedule(w, run[..n]);
    ReleasesNeverDrop(Run(w, run[..n]), run[n]);
    if Closed(Run(w, run[..n]).escrow.value) { TerminalStep(Run(w, run[..n]), run[n]); }
  }

  lemma {:induction false} FinalBalanceKept(w: World, run: seq<Step>, a: Address)
    requires Settled(w) && Unsigned(w.self, run) && FeeIsFixed(w, run)
    requires forall s <- run :: Apart(w.self, s) && CreatesUnapproved(s) && Ordinary(s)
    requires w.escrow.Some?
    requires Run(w, run).escrow.Some? && !Closed(Run(w, run).escrow.value) && Run(w, run).escrow.value.releasesMade == 0
    ensures var z := Run(w, run);
      && z.config.Some? == w.config.Some?
      && z.escrow.value.token == w.escrow.value.token
      && FinalBalance(z, a) == FinalBalance(w, a)
  {
    if run != [] {
      var n := |run| - 1;
      OpenBefore(w, run);
      assert run[n] in run;
      FinalBalanceKept(w, run[..n], a);
      DueColumnKept(Run(w, run[..n]), run[n], a);
      FinalBalanceStep(Run(w, run[..n]), run[n], a);
    }
  }

  /** A run that completes leaves everybody with what was due from the start: balances at the end
      are a function of the world it began in. */
  lemma {:induction false} CompletionPaysWhatIsDue(start: World, common: seq<Step>, run: seq<Step>, a: Address)
    requires ClosedWorld(start, common + run) && (forall s <- run :: Ordinary(s))
    requires var w := Run(start, common);
      FeeIsFixed(w, run) && w.escrow.Some?
    requires var z := Run(start, common + run);
      z.escrow.Some? && z.escrow.value.status == Completed && z.escrow.value.releasesMade == 0
    ensures var w, z := Run(start, common), Run(start, common + run);
      Balance(z.bank, w.escrow.value.token, a) == FinalBalance(w, a)
  {
    assert forall s <- common :: s in common + run;
    assert forall s <- run :: s in common + run;
    SettledAlways(start, common);
    RunConcat(start, common, run);
    var w := Run(start, common);
    FinalBalanceKept(w, run, a);
    var z := Run(w, run);
    SettledFrom(w, run);
    DueWhenAllApproved(DueColumn(z, a), z.escrow.value.milestones);
  }

  /** Order independence: two runs that complete the same escrow without changing the freelancer end
      with equal balances, however their submissions and approvals were ordered. */
  lemma {:induction false} OrderIndependence(start: World, common: seq<Step>, one: seq<Step>, other: seq<Step>,
                                             a: Address)
    requires ClosedWorld(start, common + one) && ClosedWorld(start, common + other)
    requires forall s <- one + other :: Ordinary(s)
    requires var w := Run(start, common);
      FeeIsFixed(w, one + other) && w.escrow.Some?
    requires var y := Run(start, common + one);
      y.escrow.Some? && y.escrow.value.status == Completed && y.escrow.value.releasesMade == 0
    requires var z := Run(start, common + other);
      z.escrow.Some? && z.escrow.value.status == Completed && z.escrow.value.releasesMade == 0
    ensures var t := Run(start, common).escrow.value.token;
      Balance(Run(start, common + one).bank, t, a) == Balance(Run(start, common + other).bank, t, a)
  {
    assert forall s <- one :: s in one + other;
    assert forall s <- other :: s in one + other;
    CompletionPaysWhatIsDue(start, common, one, a);
    CompletionPaysWhatIsDue(start, common, other, a);
  }

  // ---------------------------------------------------------------------------------------------
  // Who had to sign

  /** Money leaves the vault only under the payer's signature or by a recurring release. */
  lemma {:induction false} OnlyThePayerReleases(w: World, s: Step)
    requires w.self !in s.env.signers
    ensures (exists m <- Moves(w, s) :: m.src == w.self) && !s.call.CallReleaseRecurring? ==>
              w.escrow.Some? && w.escrow.value.payer in s.env.signers
  {
  }

  /** A role changes hands only by its holder's signed transfer, and then to the named address. */
  lemma {:induction false} RoleStep(w: World, s: Step)
    requires w.escrow.Some?
    ensures var d, n := w.escrow.value, Next(w, s).escrow;
      && n.Some?
      && (n.value.payer != d.payer ==> s.call == CallTransferPayer(n.value.payer) && d.payer in s.env.signers)
      && (n.value.freelancer != d.freelancer ==>
            s.call == CallTransferFreelancer(n.value.freelancer) && d.freelancer in s.env.signers)
      && ((s.call.CallTransferPayer? || s.call.CallTransferFreelancer?) && Apply(w, s).outcome.Ok? ==>
            (if s.call.CallTransferPayer? then n.value.payer == s.call.newPayer
             else n.value.freelancer == s.call.newFreelancer))
  {
  }

  /** A payer who never signs stays the payer and approves nothing; a freelancer who never signs stays
      the freelancer and submits nothing. */
  lemma {:induction false} NothingWithoutConsent(w: World, run: seq<Step>)
    requires w.escrow.Some?
    ensures var d, e := w.escrow.value, Run(w, run).escrow;
      && e.Some? && |e.value.milestones| == |d.milestones|
      && (Unsigned(d.payer, run) ==>
            && e.value.payer == d.payer
            && forall k | 0 <= k < |d.milestones| ::
                e.value.milestones[k].status == Approved ==> d.milestones[k].status == Approved)
      && (Unsigned(d.freelancer, run) ==>
            && e.value.freelancer == d.freelancer
            && forall k | 0 <= k < |d.milestones| ::
                d.milestones[k].status == Pending ==> e.value.milestones[k].status == Pending)
  {
    if run != [] {
      var n := |run| - 1;
      assert run[n] in run;
      NothingWithoutConsent(w, run[..n]);
      var y := Run(w, run[..n]);
      RoleStep(y, run[n]);
      ProgressStep(y, run[n]);
      forall k: U32 | k < |w.escrow.value.milestones|
        ensures y.escrow.value.milestones[k].status != Run(w, run).escrow.value.milestones[k].status ==>
                  || (y.escrow.value.milestones[k].status == Pending && y.escrow.value.freelancer in run[n].env.signers)
                  || (y.escrow.value.milestones[k].status == Submitted && y.escrow.value.payer in run[n].env.signers)
      {
        StatusStep(y, run[n], k);
      }
    }
  }

  /** Over a whole run: if the payer never signs and no recurring release goes through, not a single
      token leaves the vault, neither to the freelancer nor as a refund. */
  lemma {:induction false} NoMoneyWithoutThePayer(w: World, run: seq<Step>)
    requires w.escrow.Some? && Unsigned(w.self, run) && Unsigned(w.escrow.value.payer, run)
    requires ReleaseTimes(w, run) == []
    ensures var z := Run(w, run);
      && z.self == w.self
      && w.bank.log <= z.bank.log
      && (forall m <- z.bank.log[|w.bank.log|..] :: m.src != w.self)
  {
    if run != [] {
      var n := |run| - 1;
      var y := Run(w, run[..n]);
      assert run[n] in run;
      NoMoneyWithoutThePayer(w, run[..n]);
      NothingWithoutConsent(w, run[..n]);
      OnlyThePayerReleases(y, run[n]);
      LogGrowsByMoves(y, run[n], w.self, w.self);
    }
  }

  predicate StatusIs(w: World, k: U32, status: MilestoneStatus) {
    w.escrow.Some? && k < |w.escrow.value.milestones| && w.escrow.value.milestones[k].status == status
  }

  /** Step `i` of the run is a successful, freelancer-signed submission of milestone `k`. */
  predicate SubmittedAt(w: World, run: seq<Step>, k: U32, i: nat)
    requires i < |run|
  {
    var y := Run(w, run[..i]);
    && run[i].call == CallSubmitWork(k) && Apply(y, run[i]).outcome.Ok?
    && y.escrow.Some? && y.escrow.value.freelancer in run[i].env.signers
  }

  /** Step `j` of the run is a successful, payer-signed approval of milestone `k`. */
  predicate ApprovedAt(w: World, run: seq<Step>, k: U32, j: nat)
    requires j < |run|
  {
    var y := Run(w, run[..j]);
    && run[j].call == CallApprove(k) && Apply(y, run[j]).outcome.Ok?
    && y.escrow.Some? && y.escrow.value.payer in run[j].env.signers
  }

  lemma {:induction false} StatusStep(w: World, s: Step, k: U32)
    requires w.escrow.Some? && k < |w.escrow.value.milestones|
    ensures var n := Next(w, s);
      && n.escrow.Some? && |n.escrow.value.milestones| == |w.escrow.value.milestones|
      && var before, after := w.escrow.value.milestones[k].status, n.escrow.value.milestones[k].status;
         after != before ==>
           || (before == Pending && after == Submitted && s.call == CallSubmitWork(k)
               && w.escrow.value.freelancer in s.env.signers)
           || (before == Submitted && after == Approved && s.call == CallApprove(k)
               && w.escrow.value.payer in s.env.signers)
  {
  }

  lemma {:induction false} SubmittedHistory(w: World, run: seq<Step>, k: U32)
    requires StatusIs(w, k, Pending)
    ensures Run(w, run).escrow.Some? && k < |Run(w, run).escrow.value.milestones|
    ensures !StatusIs(Run(w, run), k, Pending) ==> exists i | 0 <= i < |run| :: SubmittedAt(w, run, k, i)
  {
    if run != [] {
      var n := |run| - 1;
      SubmittedHistory(w, run[..n], k);
      StatusStep(Run(w, run[..n]), run[n], k);
      if !StatusIs(Run(w, run[..n]), k, Pending) {
        var i :| 0 <= i < n && SubmittedAt(w, run[..n], k, i);
        assert run[..n][..i] == run[..i];
        assert SubmittedAt(w, run, k, i);
      } else if !StatusIs(Run(w, run), k, Pending) {
        assert SubmittedAt(w, run, k, n);
      }
    }
  }

  /** A milestone that went from pending to approved was first submitted under the signature of the
      freelancer of that moment, and later approved under the signature of the payer of that moment. */
  lemma {:induction false} PaidWorkWasSubmittedAndApproved(w: World, run: seq<Step>, k: U32)
    requires StatusIs(w, k, Pending) && StatusIs(Run(w, run), k, Approved)
    ensures exists i, j | 0 <= i < j < |run| :: SubmittedAt(w, run, k, i) && ApprovedAt(w, run, k, j)
  {
    var n := |run| - 1;
    SubmittedHistory(w, run[..n], k);
    StatusStep(Run(w, run[..n]), run[n], k);
    if StatusIs(Run(w, run[..n]), k, Approved) {
      PaidWorkWasSubmittedAndApproved(w, run[..n], k);
      var i, j :| 0 <= i < j < n && SubmittedAt(w, run[..n], k, i) && ApprovedAt(w, run[..n], k, j);
      assert run[..n][..i] == run[..i] && run[..n][..j] == run[..j];
      assert SubmittedAt(w, run, k, i) && ApprovedAt(w, run, k, j);
    } else {
      var i :| 0 <= i < n && SubmittedAt(w, run[..n], k, i);
      assert run[..n][..i] == run[..i];
      assert SubmittedAt(w, run, k, i) && ApprovedAt(w, run, k, n);
    }
  }
}
