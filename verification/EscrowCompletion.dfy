/** When an active escrow can be completed at all by submissions and approvals. */
module EscrowCompletion {
  import opened Ledger
  import opened EscrowSpec
  import opened EscrowSums
  import opened EscrowMoney
  import opened EscrowSettlement
  import opened EscrowClosedWorld
  import opened EscrowTiming
  import opened EscrowProgress
  import opened EscrowPreapproved
  import opened EscrowLimits

  /** The run ends in completion without a recurring release and without the vault's own signature. */
  predicate Completes(w: World, run: seq<Step>) {
    var z := Run(w, run);
    && Unsigned(w.self, run) && ReleaseTimes(w, run) == []
    && z.escrow.Some? && z.escrow.value.status == Completed
  }

  /** Whoever still has to sign can: the payer, and the freelancer if something is left to submit. */
  predicate CanSign(w: World)
    requires w.escrow.Some?
  {
    var d := w.escrow.value;
    d.payer != w.self && (d.freelancer != w.self || forall m <- d.milestones :: m.status != Pending)
  }

  /** The fee of everything still to be paid fits. */
  predicate AllFeesFit(config: Option<ProtocolConfig>, ms: seq<Milestone>) {
    forall m <- ms :: m.status != Approved ==> FeeFits(config, m.amount)
  }

  // ---------------------------------------------------------------------------------------------
  // A run that completes

  /** An open escrow whose vault holds what is owed and whose fees fit. */
  ghost predicate Ready(w: World) {
    && WellFormed(w) && !IsPaused(w) && w.escrow.Some?
    && var d := w.escrow.value;
    && d.status == Active && |d.milestones| <= U32_MAX
    && Balance(w.bank, d.token, w.self) >= Total(Owed, d.milestones)
    && AllFeesFit(w.config, d.milestones) && CanSign(w)
  }

  /** The next call for a milestone, signed by the party it needs. */
  function Advance(d: EscrowData, idx: U32): Step
    requires idx < |d.milestones|
  {
    if d.milestones[idx].status == Pending then Step(CallSubmitWork(idx), Env({d.freelancer}, 0, 0))
    else Step(CallApprove(idx), Env({d.payer}, 0, 0))
  }

  /** A ready escrow lets any open milestone advance. */
  lemma {:induction false} ReadyAdvances(w: World, idx: U32)
    requires Ready(w) && idx < |w.escrow.value.milestones| && w.escrow.value.milestones[idx].status != Approved
    ensures Advances(w, Advance(w.escrow.value, idx)) && w.self !in Advance(w.escrow.value, idx).env.signers
  {
    var d := w.escrow.value;
    var m := d.milestones[idx];
    assert m in d.milestones;
    if m.status == Submitted {
      NeededIsCovered(w, m.amount);
      OwedCoversEach(d.milestones, idx);
      ApproveIffFunded(w, idx, Advance(d, idx).env);
    }
  }

  /** And is ready again, unless that was the last step. */
  lemma {:induction false} ReadyAfterAdvance(w: World, idx: U32)
    requires Ready(w) && idx < |w.escrow.value.milestones| && w.escrow.value.milestones[idx].status != Approved
    requires Advances(w, Advance(w.escrow.value, idx))
    ensures var n := Next(w, Advance(w.escrow.value, idx));
      && n.escrow.Some?
      && (if AllApproved(n.escrow.value.milestones) then n.escrow.value.status == Completed else Ready(n))
  {
    var d, s := w.escrow.value, Advance(w.escrow.value, idx);
    WellFormedStep(w, s);
    PendingOnlyDrops(d.milestones, idx, if s.call.CallApprove? then Approved else Submitted);
    if s.call.CallApprove? {
      ApproveMovesMoney(w, idx, s.env, d.token, w.self);
      SplitOfPositive(w.config, d.milestones[idx].amount);
      TotalAfterUpdate(Owed, d.milestones, idx, d.milestones[idx].(status := Approved));
      FeesStillFit(w.config, d.milestones, idx, Approved);
    } else {
      SubmittedTotals(Owed, d.milestones, idx);
      FeesStillFit(w.config, d.milestones, idx, Submitted);
    }
  }

  lemma {:induction false} FeesStillFit(config: Option<ProtocolConfig>, ms: seq<Milestone>, idx: nat,
                                        status: MilestoneStatus)
    requires idx < |ms| && ms[idx].status != Approved && AllFeesFit(config, ms)
    ensures AllFeesFit(config, WithStatus(ms, idx, status))
  {
    assert ms[idx] in ms;
    forall m | m in WithStatus(ms, idx, status) && m.status != Approved ensures FeeFits(config, m.amount) {
      var i :| 0 <= i < |ms| && WithStatus(ms, idx, status)[i] == m;
      if i != idx { assert ms[i] in ms; }
    }
  }

  lemma {:induction false} PendingOnlyDrops(ms: seq<Milestone>, idx: nat, status: MilestoneStatus)
    requires idx < |ms| && status != Pending
    ensures (forall m <- ms :: m.status != Pending) ==> forall m <- WithStatus(ms, idx, status) :: m.status != Pending
  {
  }

  lemma {:induction false} RunCons(w: World, s: Step, rest: seq<Step>)
    ensures Run(w, [s] + rest) == Run(Next(w, s), rest)
    ensures !s.call.CallReleaseRecurring? ==> ReleaseTimes(w, [s] + rest) == ReleaseTimes(Next(w, s), rest)
    decreases |rest|
  {
    var n := |rest|;
    assert ([s] + rest)[..n] == if rest == [] then [] else [s] + rest[..n - 1];
    if rest != [] { RunCons(w, s, rest[..n - 1]); }
  }

  /** Submitting and approving one open milestone after the other completes a ready escrow. */
  lemma {:induction false} CompletingRun(w: World) returns (run: seq<Step>)
    requires Ready(w) && !AllApproved(w.escrow.value.milestones)
    ensures Completes(w, run)
    ensures forall s <- run :: s.call.CallSubmitWork? || s.call.CallApprove?
    decreases Total(Progress, w.escrow.value.milestones)
  {
    var ms := w.escrow.value.milestones;
    var idx: U32 :| idx < |ms| && ms[idx].status != Approved;
    var s := Advance(w.escrow.value, idx);
    var n := Next(w, s);
    ReadyAdvances(w, idx);
    ReadyAfterAdvance(w, idx);
    ProgressStep(w, s);
    ProgressBounds(n.escrow.value.milestones);
    if AllApproved(n.escrow.value.milestones) {
      run := [s];
      assert [s] == [s] + [];
      RunCons(w, s, []);
    } else {
      var rest := CompletingRun(n);
      run := [s] + rest;
      RunCons(w, s, rest);
    }
  }

  /** A paused escrow is unpaused first. */
  lemma {:induction false} UnpauseFirst(w: World) returns (run: seq<Step>)
    requires WellFormed(w) && w.escrow.Some? && (w.config.Some? ==> w.config.value.admin != w.self)
    ensures var n := Run(w, run);
      && !IsPaused(n) && ReleaseTimes(w, run) == []
      && n == w.(config := n.config) && WellFormed(n) && Unsigned(w.self, run)
      && (n.config.None? <==> w.config.None?)
      && (w.config.Some? ==> n.config.value == w.config.value.(paused := false))
  {
    if IsPaused(w) {
      var s := Step(CallUnpause, Env({w.config.value.admin}, 0, 0));
      run := [s];
      assert [s] == [s] + [];
      RunCons(w, s, []);
      WellFormedStep(w, s);
    } else {
      run := [];
    }
  }

  lemma {:induction false} ReleasesConcat(w: World, first: seq<Step>, second: seq<Step>)
    ensures ReleaseTimes(w, first + second) == ReleaseTimes(w, first) + ReleaseTimes(Run(w, first), second)
    decreases |second|
  {
    if second == [] {
      assert first + second == first;
    } else {
      var n := |second| - 1;
      assert (first + second)[..|first + second| - 1] == first + second[..n];
      RunConcat(w, first, second[..n]);
      ReleasesConcat(w, first, second[..n]);
    }
  }

  // ---------------------------------------------------------------------------------------------
  // What stops completion

  /** Nothing is left to approve, yet the escrow is not completed. */
  ghost predicate Stuck(w: World) {
    w.escrow.Some? && AllApproved(w.escrow.value.milestones) && w.escrow.value.status != Completed
  }

  lemma {:induction false} StuckStays(w: World, run: seq<Step>)
    requires Stuck(w) && ReleaseTimes(w, run) == []
    ensures Stuck(Run(w, run))
  {
    if run != [] {
      var n := |run| - 1;
      StuckStays(w, run[..n]);
      var y := Run(w, run[..n]);
      assert AllApproved(y.escrow.value.milestones);
      if run[n].call.CallApprove? && run[n].call.idx < |y.escrow.value.milestones| {
        assert y.escrow.value.milestones[run[n].call.idx] in y.escrow.value.milestones;
      }
      if run[n].call.CallSubmitWork? && run[n].call.idx < |y.escrow.value.milestones| {
        assert y.escrow.value.milestones[run[n].call.idx] in y.escrow.value.milestones;
      }
    }
  }

  /** An open milestone whose fee does not fit. */
  ghost predicate Unpayable(w: World, k: nat) {
    && WellFormed(w) && w.config.Some? && w.escrow.Some? && k < |w.escrow.value.milestones|
    && w.escrow.value.status != Completed
    && var m := w.escrow.value.milestones[k];
       m.status != Approved && !FeeFits(w.config, m.amount)
  }

  lemma {:induction false} UnpayableStep(w: World, s: Step, k: nat)
    requires Unpayable(w, k) && !(s.call.CallReleaseRecurring? && Apply(w, s).outcome.Ok?)
    ensures Unpayable(Next(w, s), k)
  {
    WellFormedStep(w, s);
    ConfigStep(w, s);
    var d := w.escrow.value;
    if s.call.CallApprove? && s.call.idx < |d.milestones| {
      assert d.milestones[s.call.idx] in d.milestones;
      PayOutIff(w, d, d.milestones[s.call.idx].amount);
      if Apply(w, s).outcome.Ok? {
        var ms := Next(w, s).escrow.value.milestones;
        assert ms[k] == d.milestones[k];
        assert ms[k] in ms;
      }
    }
  }

  lemma {:induction false} UnpayableStays(w: World, run: seq<Step>, k: nat)
    requires Unpayable(w, k) && ReleaseTimes(w, run) == []
    ensures Unpayable(Run(w, run), k)
  {
    if run != [] {
      UnpayableStays(w, run[..|run| - 1], k);
      UnpayableStep(Run(w, run[..|run| - 1]), run[|run| - 1], k);
    }
  }

  /** Completion without a release leaves nothing unapproved. */
  lemma {:induction false} CompletedIsApproved(w: World, run: seq<Step>)
    requires w.escrow.Some? && w.escrow.value.status != Completed && ReleaseTimes(w, run) == []
    ensures var z := Run(w, run);
      z.escrow.Some? && (z.escrow.value.status == Completed ==> AllApproved(z.escrow.value.milestones))
  {
    if run != [] {
      var n := |run| - 1;
      CompletedIsApproved(w, run[..n]);
      ApprovedStays(Run(w, run[..n]), run[n]);
    }
  }

  lemma {:induction false} ApprovedStays(w: World, s: Step)
    requires w.escrow.Some? && (w.escrow.value.status == Completed ==> AllApproved(w.escrow.value.milestones))
    requires !(s.call.CallReleaseRecurring? && Apply(w, s).outcome.Ok?)
    ensures var n := Next(w, s);
      n.escrow.Some? && (n.escrow.value.status == Completed ==> AllApproved(n.escrow.value.milestones))
  {
    var d := w.escrow.value;
    if (s.call.CallApprove? || s.call.CallSubmitWork?) && s.call.idx < |d.milestones| {
      assert d.milestones[s.call.idx] in d.milestones;
    }
  }

  /** Without the signatures there is no completion. */
  lemma {:induction false} UnsignedNeverCompletes(w: World, run: seq<Step>)
    requires w.escrow.Some? && w.escrow.value.status != Completed && !AllApproved(w.escrow.value.milestones)
    requires !CanSign(w)
    ensures !Completes(w, run)
  {
    if Completes(w, run) {
      CompletedIsApproved(w, run);
      NothingWithoutConsent(w, run);
    }
  }

  // ---------------------------------------------------------------------------------------------
  // Exactly when

  /** In every reachable state of any world: an active escrow that has made no recurring release can
      be completed without one, and without the vault's own signature, if and only if something is
      left to approve, the fee of every milestone still to be paid fits, and nobody whose signature
      is needed is the vault itself. In particular one whose milestones all came in approved never
      completes, and neither does one with a milestone whose fee exceeds it. */
  lemma {:induction false} CompletableIff(start: World, run: seq<Step>)
    requires Deployed(start) && Unsigned(start.self, run)
    requires var w := Run(start, run);
      && w.escrow.Some? && w.escrow.value.status == Active && w.escrow.value.releasesMade == 0
      && |w.escrow.value.milestones| <= U32_MAX
    ensures var w := Run(start, run); var d := w.escrow.value;
      (exists rest :: Completes(w, rest)) <==>
        && !AllApproved(d.milestones) && AllFeesFit(w.config, d.milestones)
        && d.payer != start.self && (d.freelancer != start.self || forall m <- d.milestones :: m.status != Pending)
  {
    var w := Run(start, run);
    var ms := w.escrow.value.milestones;
    TrackedAlways(start, run);
    VaultAccount(start, run);
    AdminIsNotTheVault(start, run);
    if !AllApproved(ms) && AllFeesFit(w.config, ms) && CanSign(w) {
      var unpause := UnpauseFirst(w);
      var rest := CompletingRun(Run(w, unpause));
      RunConcat(w, unpause, rest);
      ReleasesConcat(w, unpause, rest);
      assert Completes(w, unpause + rest);
    } else {
      forall rest | Completes(w, rest) ensures false {
        NeverCompletes(w, rest);
      }
    }
  }

  lemma {:induction false} NeverCompletes(w: World, rest: seq<Step>)
    requires WellFormed(w) && w.escrow.Some? && w.escrow.value.status == Active
    requires AllApproved(w.escrow.value.milestones) || !AllFeesFit(w.config, w.escrow.value.milestones) || !CanSign(w)
    ensures !Completes(w, rest)
  {
    var ms := w.escrow.value.milestones;
    if Completes(w, rest) {
      if AllApproved(ms) {
        StuckStays(w, rest);
      } else if !CanSign(w) {
        UnsignedNeverCompletes(w, rest);
      } else {
        var k :| 0 <= k < |ms| && ms[k].status != Approved && !FeeFits(w.config, ms[k].amount);
        UnpayableStays(w, rest, k);
      }
    }
  }

  lemma {:induction false} AdminIsNotTheVault(start: World, run: seq<Step>)
    requires Deployed(start) && Unsigned(start.self, run)
    ensures var w := Run(start, run); w.config.Some? ==> w.config.value.admin != start.self
  {
    var w := Run(start, run);
    if w.config.Some? {
      ConfigCameFromInit(start, run);
      var i :| 0 <= i < |run| && SetAt(start, run, w.config.value, i);
      assert run[i] in run;
    }
  }
}
