/** The stored state as its history: every field of the record and of the config is what the successful
    calls of the run so far say, and nothing else. */
module EscrowHistory {
  import opened Ledger
  import opened EscrowSpec
  import opened EscrowSums
  import opened EscrowMoney
  import opened EscrowSettlement
  import opened EscrowClosedWorld
  import opened EscrowTiming
  import opened EscrowProgress

  datatype Kind =
    | Creation | PayerTransfer | FreelancerTransfer | Extension | Release | Closing
    | Configuration | Switch
    | Exactly(call: Call)

  predicate Is(k: Kind, c: Call) {
    match k
    case Creation => c.CallCreate?
    case PayerTransfer => c.CallTransferPayer?
    case FreelancerTransfer => c.CallTransferFreelancer?
    case Extension => c.CallExtendDeadline?
    case Release => c.CallReleaseRecurring?
    case Closing => c.CallCancel? || c.CallExpire?
    case Configuration => c.CallInit?
    case Switch => c.CallPause? || c.CallUnpause?
    case Exactly(call) => c == call
  }

  predicate Succeeds(w: World, s: Step) { Apply(w, s).outcome.Ok? }

  /** The last successful step of one kind. */
  function Last(w: World, run: seq<Step>, k: Kind): (last: Option<Step>)
    ensures last.Some? ==> Is(k, last.value.call) && last.value in run
  {
    if run == [] then None
    else
      var n := |run| - 1;
      if Is(k, run[n].call) && Succeeds(Run(w, run[..n]), run[n]) then Some(run[n]) else Last(w, run[..n], k)
  }

  /** How many successful steps of one kind. */
  function Count(w: World, run: seq<Step>, k: Kind): nat {
    if run == [] then 0
    else
      var n := |run| - 1;
      Count(w, run[..n], k) + if Is(k, run[n].call) && Succeeds(Run(w, run[..n]), run[n]) then 1 else 0
  }

  /** Step `i` of the run is a successful one of this kind. */
  predicate Hits(w: World, run: seq<Step>, k: Kind, i: nat)
    requires i < |run|
  {
    Is(k, run[i].call) && Succeeds(Run(w, run[..i]), run[i])
  }

  lemma {:induction false} HitsInPrefix(w: World, run: seq<Step>, k: Kind, i: nat, n: nat)
    requires i < n <= |run|
    ensures Hits(w, run[..n], k, i) == Hits(w, run, k, i)
  {
    assert run[..n][..i] == run[..i];
  }

  /** The last step is what its name says: a hit that no later step is. */
  lemma {:induction false} LastIsLast(w: World, run: seq<Step>, k: Kind, i: nat)
    requires i < |run| && Hits(w, run, k, i) && forall j | i < j < |run| :: !Hits(w, run, k, j)
    ensures Last(w, run, k) == Some(run[i])
  {
    var n := |run| - 1;
    if i < n {
      assert !Hits(w, run, k, n);
      forall j | i <= j < n ensures Hits(w, run[..n], k, j) == Hits(w, run, k, j) { HitsInPrefix(w, run, k, j, n); }
      LastIsLast(w, run[..n], k, i);
    }
  }

  // ---------------------------------------------------------------------------------------------
  // Config

  /** The config is what the one successful `init` set, and paused exactly if the last successful switch
      was `pause`. */
  ghost predicate ConfigSays(c: Option<ProtocolConfig>, init: Option<Step>, switch: Option<Step>) {
    match init
    case None => c.None? && switch.None?
    case Some(s) =>
      && s.call.CallInit?
      && var paused := switch.Some? && switch.value.call.CallPause?;
      && c == Some(ProtocolConfig(s.call.admin, paused, s.call.feeBps, s.call.feeCollector))
  }

  lemma {:induction false} ConfigIsItsHistory(start: World, run: seq<Step>)
    requires Deployed(start)
    ensures ConfigSays(Run(start, run).config, Last(start, run, Configuration), Last(start, run, Switch))
    ensures Count(start, run, Configuration) == if Run(start, run).config.Some? then 1 else 0
  {
    if run != [] { ConfigIsItsHistory(start, run[..|run| - 1]); }
  }

  // ---------------------------------------------------------------------------------------------
  // Record

  /** The fields of the record that a call names, from the successful calls that named them last. */
  ghost predicate RecordSays(start: World, run: seq<Step>, d: EscrowData, s: Step) {
    && s.call.CallCreate?
    && var c := s.call;
    && var p, f := Last(start, run, PayerTransfer), Last(start, run, FreelancerTransfer);
    && var x, r := Last(start, run, Extension), Last(start, run, Release);
    && d.payer == (if p.Some? then p.value.call.newPayer else c.payer)
    && d.freelancer
         == (if f.Some? then f.value.call.newFreelancer else c.freelancer)
    && d.deadline == (if x.Some? then Some(x.value.call.newDeadline) else c.deadline)
    && d.lastReleaseTime == (if r.Some? then r.value.env.now else s.env.now)
    && d.releasesMade == Count(start, run, Release)
    && d.token == c.token && d.interval == c.interval && d.recurrenceCount == c.recurrenceCount
    && d.totalAmount == Total(Amounts, c.milestones)
  }

  predicate NeedsEscrow(c: Call) {
    || c.CallSubmitWork? || c.CallApprove? || c.CallReleaseRecurring? || c.CallCancel? || c.CallExpire?
    || c.CallTransferFreelancer? || c.CallTransferPayer? || c.CallExtendDeadline?
  }

  /** Without an escrow none of the calls that need one has succeeded. */
  ghost predicate NothingYet(start: World, run: seq<Step>) {
    && Last(start, run, Creation).None?
    && Last(start, run, PayerTransfer).None? && Last(start, run, FreelancerTransfer).None?
    && Last(start, run, Extension).None? && Last(start, run, Release).None? && Count(start, run, Release) == 0
  }

  /** There is a record exactly if a `create` succeeded, and it is what the history says. */
  ghost predicate HistorySays(start: World, run: seq<Step>) {
    var w, create := Run(start, run), Last(start, run, Creation);
    if w.escrow.None? then NothingYet(start, run)
    else create.Some? && RecordSays(start, run, w.escrow.value, create.value)
  }

  lemma {:induction false} RecordStep(start: World, run: seq<Step>, s: Step)
    requires HistorySays(start, run)
    ensures HistorySays(start, run + [s])
  {
    var w, more := Run(start, run), run + [s];
    assert more[..|run|] == run && more[|run|] == s;
    LastStep(start, run, s);
    FieldsStep(w, s);
  }

  lemma {:induction false} LastStep(start: World, run: seq<Step>, s: Step)
    ensures Run(start, run + [s]) == Next(Run(start, run), s)
    ensures forall k ::
      var hit := Is(k, s.call) && Succeeds(Run(start, run), s);
      && Last(start, run + [s], k) == (if hit then Some(s) else Last(start, run, k))
      && Count(start, run + [s], k) == Count(start, run, k) + if hit then 1 else 0
  {
    assert (run + [s])[..|run|] == run;
  }

  /** What one call makes of the named fields. */
  lemma {:induction false} FieldsStep(w: World, s: Step)
    ensures var n := Next(w, s).escrow;
      if w.escrow.None? then
        && (n.Some? <==> s.call.CallCreate? && Succeeds(w, s))
        && (Succeeds(w, s) ==> !NeedsEscrow(s.call))
        && (n.Some? ==>
              && n.value.payer == s.call.payer && n.value.freelancer == s.call.freelancer
              && n.value.token == s.call.token && n.value.deadline == s.call.deadline
              && n.value.interval == s.call.interval && n.value.recurrenceCount == s.call.recurrenceCount
              && n.value.releasesMade == 0 && n.value.lastReleaseTime == s.env.now
              && n.value.milestones == s.call.milestones
              && n.value.totalAmount == Total(Amounts, s.call.milestones))
      else
        var d := w.escrow.value; var ok := Succeeds(w, s);
        && n.Some? && !(s.call.CallCreate? && ok)
        && n.value.payer == (if s.call.CallTransferPayer? && ok then s.call.newPayer else d.payer)
        && n.value.freelancer
             == (if s.call.CallTransferFreelancer? && ok then s.call.newFreelancer else d.freelancer)
        && n.value.deadline
             == (if s.call.CallExtendDeadline? && ok then Some(s.call.newDeadline) else d.deadline)
        && n.value.lastReleaseTime == (if s.call.CallReleaseRecurring? && ok then s.env.now else d.lastReleaseTime)
        && n.value.releasesMade == d.releasesMade + (if s.call.CallReleaseRecurring? && ok then 1 else 0)
        && n.value.token == d.token && n.value.interval == d.interval
        && n.value.recurrenceCount == d.recurrenceCount && n.value.totalAmount == d.totalAmount
  {
  }

  /** The record is its history: there is one exactly if a `create` succeeded, and each field is what the
      last successful call naming it said, or else what that `create` said. */
  lemma {:induction false} RecordIsItsHistory(start: World, run: seq<Step>)
    requires Deployed(start)
    ensures HistorySays(start, run)
  {
    if run != [] {
      var n := |run| - 1;
      RecordIsItsHistory(start, run[..n]);
      RecordStep(start, run[..n], run[n]);
      assert run == run[..n] + [run[n]];
    }
  }

  // ---------------------------------------------------------------------------------------------
  // Milestones

  /** One milestone, from what came in and the successful calls that named it. */
  ghost predicate MilestoneSays(start: World, run: seq<Step>, m: Milestone, given: Milestone, k: U32) {
    m == given.(status :=
      if given.status == Approved || Last(start, run, Exactly(CallApprove(k))).Some? then Approved
      else if given.status == Submitted || Last(start, run, Exactly(CallSubmitWork(k))).Some? then Submitted
      else Pending)
  }

  ghost predicate MilestonesSay(start: World, run: seq<Step>, k: U32) {
    var w, c := Run(start, run), Last(start, run, Creation);
    if w.escrow.None? then
      && Last(start, run, Exactly(CallApprove(k))).None? && Last(start, run, Exactly(CallSubmitWork(k))).None?
    else
      && c.Some? && |w.escrow.value.milestones| == |c.value.call.milestones|
      && (k < |w.escrow.value.milestones| ==>
            MilestoneSays(start, run, w.escrow.value.milestones[k], c.value.call.milestones[k], k))
  }

  lemma {:induction false} MilestoneStep(w: World, s: Step, k: U32)
    requires w.escrow.Some? && k < |w.escrow.value.milestones|
    ensures var m, n := w.escrow.value.milestones[k], Next(w, s).escrow;
      && n.Some? && |n.value.milestones| == |w.escrow.value.milestones|
      && n.value.milestones[k] == m.(status :=
           if s.call == CallApprove(k) && Succeeds(w, s) then Approved
           else if s.call == CallSubmitWork(k) && Succeeds(w, s) then Submitted
           else m.status)
      && (s.call == CallApprove(k) && Succeeds(w, s) ==> m.status == Submitted)
      && (s.call == CallSubmitWork(k) && Succeeds(w, s) ==> m.status == Pending)
  {
  }

  /** The milestones are their history: amount and description as they came in; approved exactly if they
      came in so or an approval of them succeeded, submitted exactly if not approved and they came in
      so or a submission of them succeeded. */
  lemma {:induction false} MilestonesAreTheirHistory(start: World, run: seq<Step>, k: U32)
    requires Deployed(start)
    ensures MilestonesSay(start, run, k)
  {
    if run != [] {
      var n := |run| - 1;
      var w, s := Run(start, run[..n]), run[n];
      MilestonesAreTheirHistory(start, run[..n], k);
      LastStep(start, run[..n], s);
      assert run == run[..n] + [s];
      FieldsStep(w, s);
      if w.escrow.Some? {
        SameLength(w, s);
        if k < |w.escrow.value.milestones| { MilestoneStep(w, s, k); }
      }
    }
  }

  lemma {:induction false} SameLength(w: World, s: Step)
    requires w.escrow.Some?
    ensures Next(w, s).escrow.Some? && |Next(w, s).escrow.value.milestones| == |w.escrow.value.milestones|
  {
  }

  // ---------------------------------------------------------------------------------------------
  // Status

  /** The status a successful call stands for: creation, closing, the approval of the last milestone, the
      last agreed release. */
  function Mark(w: World, s: Step): Option<EscrowStatus> {
    var n := Next(w, s).escrow;
    if !Succeeds(w, s) || n.None? then None
    else match s.call
      case CallCreate(_, _, _, _, _, _, _) => Some(Active)
      case CallCancel => Some(Cancelled)
      case CallExpire => Some(Expired)
      case CallApprove(_) => if AllApproved(n.value.milestones) then Some(Completed) else None
      case CallReleaseRecurring => if n.value.releasesMade == n.value.recurrenceCount then Some(Completed) else None
      case _ => None
  }

  function LastMark(w: World, run: seq<Step>): Option<EscrowStatus> {
    if run == [] then None
    else
      var n := |run| - 1;
      var mark := Mark(Run(w, run[..n]), run[n]);
      if mark.Some? then mark else LastMark(w, run[..n])
  }

  lemma {:induction false} StatusMarked(w: World, s: Step)
    requires w.escrow.Some? ==> w.escrow.value.releasesMade <= w.escrow.value.recurrenceCount
    ensures var n, mark := Next(w, s).escrow, Mark(w, s);
      && (w.escrow.Some? ==> n.Some?)
      && (n.None? ==> mark.None?)
      && (n.Some? ==> if mark.Some? then n.value.status == mark.value
                      else w.escrow.Some? && n.value.status == w.escrow.value.status)
  {
  }

  /** The status is what the last marking call says: expired exactly if the last such call was `expire`,
      cancelled if it was `cancel`, completed if it was the approval that left nothing open or the last
      agreed release, active if there was none but the creation. */
  lemma {:induction false} StatusIsTheLastMark(start: World, run: seq<Step>)
    requires Deployed(start)
    ensures var w := Run(start, run);
      LastMark(start, run) == if w.escrow.Some? then Some(w.escrow.value.status) else None
    ensures WellFormed(Run(start, run))
  {
    if run != [] {
      var n := |run| - 1;
      StatusIsTheLastMark(start, run[..n]);
      StatusMarked(Run(start, run[..n]), run[n]);
      WellFormedStep(Run(start, run[..n]), run[n]);
    }
  }

  /** Closed means closed by a call of that name, with no completion since: a cancelled or expired
      escrow's last successful closing call was `cancel` or `expire`; one that is neither was never
      closed, or completed afterwards. */
  lemma {:induction false} ClosedByItsName(start: World, run: seq<Step>)
    requires Deployed(start)
    ensures var w, last := Run(start, run), Last(start, run, Closing);
      w.escrow.Some? ==>
        && (w.escrow.value.status == Expired <==>
              last.Some? && last.value.call.CallExpire? && w.escrow.value.status != Completed)
        && (w.escrow.value.status == Cancelled <==>
              last.Some? && last.value.call.CallCancel? && w.escrow.value.status != Completed)
        && Count(start, run, Closing) == (if last.Some? then 1 else 0)
  {
    if run != [] {
      var n := |run| - 1;
      var w, s := Run(start, run[..n]), run[n];
      ClosedByItsName(start, run[..n]);
      StatusIsTheLastMark(start, run[..n]);
      StatusMarked(w, s);
      LastStep(start, run[..n], s);
      assert run == run[..n] + [s];
      NoneBefore(start, run[..n]);
      if w.escrow.Some? { ProgressStep(w, s); }
    }
  }

  lemma {:induction false} NoneBefore(start: World, run: seq<Step>)
    requires Deployed(start)
    ensures Run(start, run).escrow.None? ==> Last(start, run, Closing).None? && Count(start, run, Closing) == 0
  {
    if run != [] {
      var n := |run| - 1;
      NoneBefore(start, run[..n]);
      FieldsStep(Run(start, run[..n]), run[n]);
    }
  }

  // ---------------------------------------------------------------------------------------------
  // Expiry, by history alone

  /** In the closed world and before a first release, `expire` succeeds exactly if an escrow was created
      and neither closed nor completed since, the last switch of the contract was not a pause, the
      payer by creation or last transfer signed, and the deadline by creation or last extension
      exists and has passed. */
  lemma {:induction false} ExpireByHistory(start: World, run: seq<Step>, env: Env)
    requires ClosedWorld(start, run) && Count(start, run, Release) == 0
    ensures
      var create, extension := Last(start, run, Creation), Last(start, run, Extension);
      var transfer, switch := Last(start, run, PayerTransfer), Last(start, run, Switch);
      Expire(Run(start, run), env).outcome.Ok? <==>
        && create.Some? && LastMark(start, run) == Some(Active)
        && (switch.Some? ==> !switch.value.call.CallPause?)
        && (if transfer.Some? then transfer.value.call.newPayer else create.value.call.payer) in env.signers
        && var deadline :=
             if extension.Some? then Some(extension.value.call.newDeadline) else create.value.call.deadline;
           deadline.Some? && env.now > deadline.value
  {
    RecordIsItsHistory(start, run);
    ConfigIsItsHistory(start, run);
    StatusIsTheLastMark(start, run);
    RefundSucceedsIff(start, run, env);
  }

  /** Likewise `approve`: the milestone was submitted, or came in so, and was neither approved nor did it
      come in approved; and its fee under the config, if one was ever set, fits. */
  lemma {:induction false} ApproveByHistory(start: World, run: seq<Step>, idx: U32, env: Env)
    requires ClosedWorld(start, run) && Count(start, run, Release) == 0
    ensures
      var create, config := Last(start, run, Creation), Last(start, run, Configuration);
      var transfer, switch := Last(start, run, PayerTransfer), Last(start, run, Switch);
      Approve(Run(start, run), idx, env).outcome.Ok? <==>
        && create.Some? && LastMark(start, run) == Some(Active) && idx < |create.value.call.milestones|
        && (switch.Some? ==> !switch.value.call.CallPause?)
        && (if transfer.Some? then transfer.value.call.newPayer else create.value.call.payer) in env.signers
        && var given := create.value.call.milestones[idx];
        && Last(start, run, Exactly(CallApprove(idx))).None?
        && (given.status == Submitted || Last(start, run, Exactly(CallSubmitWork(idx))).Some?)
        && (config.Some? ==>
              var product := given.amount * config.value.call.feeBps;
              product <= I128_MAX && product / 10000 <= given.amount)
  {
    RecordIsItsHistory(start, run);
    ConfigIsItsHistory(start, run);
    StatusIsTheLastMark(start, run);
    MilestonesAreTheirHistory(start, run, idx);
    ApproveSucceedsIff(start, run, idx, env);
    if Last(start, run, Creation).Some? { GivenUnapproved(start, run); }
  }

  lemma {:induction false} GivenUnapproved(start: World, run: seq<Step>)
    requires ClosedWorld(start, run) && Last(start, run, Creation).Some?
    ensures NoneApproved(Last(start, run, Creation).value.call.milestones)
  {
    assert Last(start, run, Creation).value in run;
  }
}
