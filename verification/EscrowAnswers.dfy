/** When each entry point succeeds, what exactly it then leaves behind, and what each error answer means,
    in every world. */
module EscrowAnswers {
  import opened Ledger
  import opened EscrowSpec
  import opened EscrowSums
  import opened EscrowMoney
  import opened EscrowSettlement
  import opened EscrowClosedWorld
  import opened EscrowTiming
  import opened EscrowHistory

  // ---------------------------------------------------------------------------------------------
  // Errors

  /** The entry points that ask whether the contract is paused. */
  predicate Guarded(c: Call) { NeedsEscrow(c) || c.CallCreate? }

  /** Positive milestones that add up within i128. */
  predicate Sound(ms: seq<Milestone>) { (forall m <- ms :: m.amount > 0) && Total(Amounts, ms) <= I128_MAX }

  /** Milestone `i` is the first to spoil the sum, by not being positive. */
  predicate NotPositiveAt(ms: seq<Milestone>, i: nat)
    requires i < |ms|
  {
    Sound(ms[..i]) && ms[i].amount <= 0
  }

  /** Milestone `i` is the first to spoil the sum, by overflowing it. */
  predicate OverflowsAt(ms: seq<Milestone>, i: nat)
    requires i < |ms|
  {
    Sound(ms[..i]) && ms[i].amount > 0 && Total(Amounts, ms[..i]) + ms[i].amount > I128_MAX
  }

  lemma {:induction false} SpoiltAt(ms: seq<Milestone>, i: nat)
    requires i < |ms| && (NotPositiveAt(ms, i) || OverflowsAt(ms, i))
    ensures NotPositiveAt(ms, i) ==> CheckedTotal(ms).NotPositive?
    ensures OverflowsAt(ms, i) ==> CheckedTotal(ms).Overflow?
  {
    assert ms[..i + 1][..i] == ms[..i];
    CheckedTotalStops(ms, i);
  }

  lemma {:induction false} FirstSpoilt(ms: seq<Milestone>) returns (i: nat)
    requires !Sound(ms)
    ensures i < |ms| && (NotPositiveAt(ms, i) || OverflowsAt(ms, i))
  {
    var n := |ms| - 1;
    assert ms == ms[..n] + [ms[n]];
    if Sound(ms[..n]) {
      i := n;
    } else {
      i := FirstSpoilt(ms[..n]);
      assert ms[..n][..i] == ms[..i];
    }
  }

  /** How the sum fails: the first milestone that spoils it decides. */
  lemma {:induction false} CheckedTotalFails(ms: seq<Milestone>)
    ensures CheckedTotal(ms).Sum? <==> Sound(ms)
    ensures CheckedTotal(ms).NotPositive? <==> exists i | 0 <= i < |ms| :: NotPositiveAt(ms, i)
    ensures CheckedTotal(ms).Overflow? <==> exists i | 0 <= i < |ms| :: OverflowsAt(ms, i)
  {
    if !Sound(ms) {
      var i := FirstSpoilt(ms);
      SpoiltAt(ms, i);
    }
    forall i | 0 <= i < |ms| && NotPositiveAt(ms, i) ensures CheckedTotal(ms).NotPositive? { SpoiltAt(ms, i); }
    forall i | 0 <= i < |ms| && OverflowsAt(ms, i) ensures CheckedTotal(ms).Overflow? { SpoiltAt(ms, i); }
  }

  /** The call is past its pause check and finds an escrow. */
  predicate Reaches(w: World, c: Call) { NeedsEscrow(c) && !IsPaused(w) && w.escrow.Some? }

  predicate Recurring(d: EscrowData) { d.interval > 0 && d.recurrenceCount > 0 }

  /** The milestone index of a submission or approval that gets as far as looking at it. */
  predicate Looks(w: World, c: Call) {
    Reaches(w, c) && (c.CallApprove? || (c.CallSubmitWork? && w.escrow.value.status == Active))
  }

  /** What each error answer means, for every call in every world, both ways. */
  ghost predicate ErrorMeans(w: World, s: Step, e: EscrowError) {
    var c := s.call;
    match e
    case Paused => Guarded(c) && IsPaused(w)
    case AlreadyExists => (c.CallInit? && w.config.Some?) || (c.CallCreate? && !IsPaused(w) && w.escrow.Some?)
    case InvalidAmount =>
      && c.CallCreate? && !IsPaused(w) && w.escrow.None?
      && (c.milestones == [] || exists i | 0 <= i < |c.milestones| :: NotPositiveAt(c.milestones, i))
    case TokenNotAllowed =>
      && c.CallCreate? && !IsPaused(w) && w.escrow.None? && c.milestones != [] && Sound(c.milestones)
      && w.allowed != [] && c.token !in w.allowed
    case NotActive =>
      && Reaches(w, c) && w.escrow.value.status != Active
      && (c.CallSubmitWork? || c.CallCancel? || c.CallExpire? || (c.CallReleaseRecurring? && Recurring(w.escrow.value)))
    case MilestoneInvalidIndex => Looks(w, c) && c.idx >= |w.escrow.value.milestones|
    case MilestoneNotPending =>
      && Looks(w, c) && c.CallSubmitWork? && c.idx < |w.escrow.value.milestones|
      && w.escrow.value.milestones[c.idx].status != Pending
    case MilestoneNotSubmitted =>
      && Looks(w, c) && c.CallApprove? && c.idx < |w.escrow.value.milestones|
      && w.escrow.value.milestones[c.idx].status != Submitted
    case NotRecurring => Reaches(w, c) && c.CallReleaseRecurring? && !Recurring(w.escrow.value)
    case RecurrenceComplete =>
      && Reaches(w, c) && c.CallReleaseRecurring? && Recurring(w.escrow.value) && w.escrow.value.status == Active
      && w.escrow.value.releasesMade >= w.escrow.value.recurrenceCount
    case IntervalNotElapsed =>
      && Reaches(w, c) && c.CallReleaseRecurring? && Recurring(w.escrow.value) && w.escrow.value.status == Active
      && w.escrow.value.releasesMade < w.escrow.value.recurrenceCount
      && s.env.now < w.escrow.value.lastReleaseTime + w.escrow.value.interval <= U64_MAX
    case NotExpired =>
      Reaches(w, c) && c.CallExpire? && w.escrow.value.status == Active && w.escrow.value.deadline.None?
    case DeadlineNotPassed =>
      && Reaches(w, c) && c.CallExpire? && w.escrow.value.status == Active
      && w.escrow.value.deadline.Some? && s.env.now <= w.escrow.value.deadline.value
    case InvalidDeadline =>
      && Reaches(w, c) && c.CallExtendDeadline? && w.escrow.value.payer in s.env.signers
      && (w.escrow.value.deadline.Some? ==> c.newDeadline <= w.escrow.value.deadline.value)
  }

  /** An error is returned exactly when it is meant; and nothing that fails leaves a trace. */
  lemma {:induction false} ErrorsMeanWhatTheySay(w: World, s: Step, e: EscrowError)
    ensures Apply(w, s).outcome == Err(e) <==> ErrorMeans(w, s, e)
    ensures !Apply(w, s).outcome.Ok? ==> Next(w, s) == w
  {
    if s.call.CallCreate? {
      CreateErrors(w, s, e);
    }
  }

  lemma {:induction false} CreateErrors(w: World, s: Step, e: EscrowError)
    requires s.call.CallCreate?
    ensures Apply(w, s).outcome == Err(e) <==> ErrorMeans(w, s, e)
  {
    CheckedTotalFails(s.call.milestones);
  }

  /** No two errors are ever meant at once. */
  lemma {:induction false} ErrorsExclude(w: World, s: Step, e: EscrowError, f: EscrowError)
    ensures ErrorMeans(w, s, e) && ErrorMeans(w, s, f) ==> e == f
  {
    ErrorsMeanWhatTheySay(w, s, e);
    ErrorsMeanWhatTheySay(w, s, f);
  }

  // ---------------------------------------------------------------------------------------------
  // Config and pause

  /** `init` succeeds exactly once and under the admin's own signature; a second one answers
      `AlreadyExists` whoever signs. */
  lemma {:induction false} InitIff(w: World, s: Step)
    requires s.call.CallInit?
    ensures Succeeds(w, s) <==> w.config.None? && s.call.admin in s.env.signers
    ensures Succeeds(w, s) ==> forall t: Step | t.call.CallInit? :: Apply(Next(w, s), t).outcome == Err(AlreadyExists)
    ensures Next(w, s) == w.(config := Next(w, s).config)
  {
  }

  /** `pause` pauses and `unpause` unpauses, each exactly under the signature of a stored admin, and
      neither touches anything else. */
  lemma {:induction false} SwitchIff(w: World, s: Step)
    requires s.call.CallPause? || s.call.CallUnpause?
    ensures Succeeds(w, s) <==> w.config.Some? && w.config.value.admin in s.env.signers
    ensures Succeeds(w, s) ==> (IsPaused(Next(w, s)) <==> s.call.CallPause?)
    ensures Succeeds(w, s) ==> Next(w, s) == w.(config := Some(w.config.value.(paused := s.call.CallPause?)))
  {
  }

  /** After a successful `pause`, over every continuation in which the admin signs no `unpause`, the
      contract stays paused, the record stays as it was and every guarded call answers `Paused`. */
  lemma {:induction false} PauseHolds(w: World, s: Step, rest: seq<Step>, t: Step)
    requires s.call.CallPause? && Succeeds(w, s)
    requires forall r <- rest :: KeepsPause(w.config.value.admin, r)
    ensures var z := Run(Next(w, s), rest);
      && IsPaused(z) && z.escrow == w.escrow
      && (Guarded(t.call) ==> Apply(z, t).outcome == Err(Paused))
  {
    SwitchIff(w, s);
    PauseFreezes(Next(w, s), rest);
    ErrorsMeanWhatTheySay(Run(Next(w, s), rest), t, Paused);
  }

  // ---------------------------------------------------------------------------------------------
  // Record calls that move no money

  lemma {:induction false} SubmitIff(w: World, s: Step)
    requires s.call.CallSubmitWork?
    ensures Succeeds(w, s) <==>
              && Looks(w, s.call) && s.call.idx < |w.escrow.value.milestones|
              && w.escrow.value.milestones[s.call.idx].status == Pending && w.escrow.value.freelancer in s.env.signers
    ensures Succeeds(w, s) ==>
              var d := w.escrow.value;
              Next(w, s) == w.(escrow := Some(d.(milestones := WithStatus(d.milestones, s.call.idx, Submitted))))
  {
  }

  /** A role is handed over exactly under its holder's signature, whatever the escrow's status, and to
      exactly the address named. */
  lemma {:induction false} RoleTransferIff(w: World, s: Step)
    requires s.call.CallTransferPayer? || s.call.CallTransferFreelancer?
    ensures Succeeds(w, s) <==>
              && Reaches(w, s.call)
              && var d := w.escrow.value;
                 (if s.call.CallTransferPayer? then d.payer else d.freelancer) in s.env.signers
    ensures Succeeds(w, s) ==>
              && Next(w, s) == w.(escrow := Next(w, s).escrow) && Next(w, s).escrow.Some?
              && var d, e := w.escrow.value, Next(w, s).escrow.value;
              && e == d.(payer := e.payer, freelancer := e.freelancer)
              && (s.call.CallTransferPayer? ==> e.payer == s.call.newPayer && e.freelancer == d.freelancer)
              && (s.call.CallTransferFreelancer? ==> e.freelancer == s.call.newFreelancer && e.payer == d.payer)
  {
  }

  /** A deadline is extended exactly under the payer's signature, if there is one, and to a later time,
      which it then is. An expiry that was possible before is refused up to the new deadline. */
  lemma {:induction false} ExtendIff(w: World, s: Step, env: Env)
    requires s.call.CallExtendDeadline?
    ensures Succeeds(w, s) <==>
              && Reaches(w, s.call) && w.escrow.value.payer in s.env.signers
              && w.escrow.value.deadline.Some? && s.call.newDeadline > w.escrow.value.deadline.value
    ensures Succeeds(w, s) ==>
              && Next(w, s) == w.(escrow := Some(w.escrow.value.(deadline := Some(s.call.newDeadline))))
              && (env.now <= s.call.newDeadline ==> !Expire(Next(w, s), env).outcome.Ok?)
  {
  }

  // ---------------------------------------------------------------------------------------------
  // Creation

  /** What was asked for is what is stored. */
  lemma {:induction false} CreateStores(w: World, s: Step)
    requires s.call.CallCreate? && Succeeds(w, s)
    ensures var c := s.call;
      Next(w, s).escrow == Some(EscrowData(c.payer, c.freelancer, c.token, Total(Amounts, c.milestones), c.milestones,
                                           Active, c.deadline, c.interval, c.recurrenceCount, 0, s.env.now))
    ensures Next(w, s).config == w.config && Next(w, s).allowed == w.allowed
  {
  }

  // ---------------------------------------------------------------------------------------------
  // Releases

  /** When an amount of any sign can be paid out of a balance: the fee computation fits, what is left
      after the fee is not negative, and the balance covers both. A fee that is not positive is not
      collected. */
  predicate Payable(w: World, amount: I128, balance: int) {
    var fee := if w.config.Some? then FeeOf(amount, w.config.value.feeBps) else 0;
    && (w.config.Some? ==> FitsI128(amount * w.config.value.feeBps))
    && fee <= amount
    && (if fee <= 0 || Collector(w) == w.self then fee <= balance && amount - fee <= balance else amount <= balance)
  }

  lemma {:induction false} PayOutIfPayable(w: World, d: EscrowData, amount: I128)
    ensures PayOut(w, d, amount).Some? <==> Payable(w, amount, Balance(w.bank, d.token, w.self))
  {
  }

  /** A release goes through exactly if the escrow is recurring, active and has releases left, its next
      due time fits and has come, and the amount can be paid; nobody has to sign. It counts one
      release at this time, and the last agreed one completes the escrow. */
  lemma {:induction false} ReleaseIff(w: World, s: Step)
    requires s.call.CallReleaseRecurring?
    ensures Succeeds(w, s) <==>
              && Reaches(w, s.call) && Recurring(w.escrow.value)
              && var d := w.escrow.value;
              && d.status == Active && d.releasesMade < d.recurrenceCount
              && d.lastReleaseTime + d.interval <= U64_MAX && s.env.now >= d.lastReleaseTime + d.interval
              && Payable(w, s.env.unitAmount, Balance(w.bank, d.token, w.self))
    ensures Succeeds(w, s) ==>
              var d := w.escrow.value; var last := d.releasesMade + 1 == d.recurrenceCount;
              Next(w, s).escrow == Some(d.(releasesMade := d.releasesMade + 1, lastReleaseTime := s.env.now,
                                           status := if last then Completed else Active))
  {
    if Reaches(w, s.call) { PayOutIfPayable(w, w.escrow.value, s.env.unitAmount); }
  }

  ghost predicate AgreedIsCompleted(w: World) {
    w.escrow.Some? ==>
      var d := w.escrow.value;
      d.recurrenceCount > 0 && d.releasesMade == d.recurrenceCount ==> d.status == Completed
  }

  lemma {:induction false} AgreedIsCompletedStep(w: World, s: Step)
    requires AgreedIsCompleted(w)
    ensures AgreedIsCompleted(Next(w, s))
  {
    if s.call.CallReleaseRecurring? { ReleaseIff(w, s); }
  }

  /** Once all agreed releases are made the escrow is completed, and stays so. */
  lemma {:induction false} AgreedReleasesComplete(start: World, run: seq<Step>)
    requires Deployed(start)
    ensures AgreedIsCompleted(Run(start, run))
  {
    if run != [] {
      var n := |run| - 1;
      AgreedReleasesComplete(start, run[..n]);
      AgreedIsCompletedStep(Run(start, run[..n]), run[n]);
    }
  }

  // ---------------------------------------------------------------------------------------------
  // Closing

  /** A closing call leaves the status of its own name and nothing else in the record: `cancel` exactly
      Cancelled, `expire` exactly Expired. */
  lemma {:induction false} ClosingLeaves(w: World, s: Step)
    requires (s.call.CallCancel? || s.call.CallExpire?) && Succeeds(w, s)
    ensures w.escrow.Some? && w.escrow.value.status == Active
    ensures Next(w, s).escrow == Some(w.escrow.value.(status := if s.call.CallCancel? then Cancelled else Expired))
    ensures Next(w, s).config == w.config && Next(w, s).allowed == w.allowed
  {
  }

  /** And succeeds exactly if the escrow is active and payer-signed, for `expire` past its deadline, and
      the unapproved amounts, plus the released ones as the code adds them, fit and are in the vault. */
  lemma {:induction false} ClosingIff(w: World, s: Step)
    requires WellFormed(w) && (s.call.CallCancel? || s.call.CallExpire?)
    ensures Succeeds(w, s) <==>
              && Reaches(w, s.call)
              && var d := w.escrow.value;
              var added := s.env.unitAmount * d.releasesMade; var refund := Total(Owed, d.milestones) + added;
              && d.status == Active && d.payer in s.env.signers
              && (s.call.CallExpire? ==> d.deadline.Some? && s.env.now > d.deadline.value)
              && FitsI128(added) && FitsI128(refund) && 0 <= refund <= Balance(w.bank, d.token, w.self)
  {
    if w.escrow.Some? {
      var d := w.escrow.value;
      PaidPlusOwed(d.milestones);
      if d.recurrenceCount == 0 { assert s.env.unitAmount * d.releasesMade == 0; }
    }
  }
}
