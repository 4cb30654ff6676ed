/** The exact edges of the escrow's money guarantees: what breaks them, and precisely when. */
module EscrowLimits {
  import opened Ledger
  import opened EscrowSpec
  import opened EscrowSums
  import opened EscrowMoney
  import opened EscrowSettlement
  import opened EscrowClosedWorld
  import opened EscrowTiming
  import opened EscrowProgress
  import opened Allowlist

  /** In any world at all, whatever the escrow's status, `approve` goes through exactly when its
      checks pass and the vault holds what the payment needs. Finality of a cancelled or expired
      escrow is therefore the same thing as a vault too poor to pay. */
  lemma {:induction false} ApproveIffFunded(w: World, idx: U32, env: Env)
    requires WellFormed(w) && w.escrow.Some? && idx < |w.escrow.value.milestones|
    ensures var d := w.escrow.value; var m := d.milestones[idx];
      Approve(w, idx, env).outcome.Ok? <==>
        && !IsPaused(w) && d.payer in env.signers && m.status == Submitted
        && FeeFits(w.config, m.amount)
        && Needed(w, m.amount) <= Balance(w.bank, d.token, w.self)
  {
    var d := w.escrow.value;
    assert d.milestones[idx] in d.milestones;
    PayOutIff(w, d, d.milestones[idx].amount);
  }

  /** And nothing but such an approval ever changes a cancelled or expired escrow: no other call, and
      no failing one, touches its status, its milestones or any field but roles and deadline. */
  lemma {:induction false} ClosedChangesIff(w: World, s: Step)
    requires WellFormed(w) && w.escrow.Some? && Closed(w.escrow.value)
    ensures var d := w.escrow.value;
      !SameBooks(w.escrow, Next(w, s).escrow) <==>
        && s.call.CallApprove? && s.call.idx < |d.milestones|
        && var m := d.milestones[s.call.idx];
        && !IsPaused(w) && d.payer in s.env.signers && m.status == Submitted
        && FeeFits(w.config, m.amount) && Needed(w, m.amount) <= Balance(w.bank, d.token, w.self)
  {
    if s.call.CallApprove? && s.call.idx < |w.escrow.value.milestones| {
      ApproveIffFunded(w, s.call.idx, s.env);
    }
    if !Touches(s.call) || Apply(w, s).outcome != Ok { QuietStep(w, s); }
  }

  /** Outside the closed world finality fails: once somebody sends the vault the amount of a
      submitted milestone, its approval goes through on a cancelled escrow too, and if it was the
      last one the escrow turns from cancelled to completed. */
  lemma {:induction false} GiftRevivesClosed(start: World, run: seq<Step>, donor: Address, idx: U32, gift: Env,
                                             env: Env)
    requires ClosedWorld(start, run)
    requires var w := Run(start, run);
      && w.escrow.Some? && w.escrow.value.releasesMade == 0 && Closed(w.escrow.value)
      && idx < |w.escrow.value.milestones|
    requires var w := Run(start, run); var d := w.escrow.value; var m := d.milestones[idx];
      && m.status == Submitted && !IsPaused(w) && d.payer in env.signers
      && FeeFits(w.config, m.amount)
      && donor != w.self && donor in gift.signers && Balance(w.bank, d.token, donor) >= m.amount
    ensures var w := Run(start, run); var d := w.escrow.value; var m := d.milestones[idx];
      var given := Next(w, Step(CallOutside(d.token, donor, w.self, m.amount), gift));
      var z := Approve(given, idx, env);
      && !Approve(w, idx, env).outcome.Ok?
      && z.outcome.Ok?
      && Balance(z.world.bank, d.token, w.self) == 0
      && (AllApproved(z.world.escrow.value.milestones) ==> z.world.escrow.value.status == Completed)
  {
    var w := Run(start, run);
    var d := w.escrow.value;
    var m := d.milestones[idx];
    assert m in d.milestones;
    SettledAlways(start, run);
    VaultHoldsWhatIsOwed(w);
    var given := Next(w, Step(CallOutside(d.token, donor, w.self, m.amount), gift));
    ApproveIffFunded(w, idx, env);
    ApproveIffFunded(given, idx, env);
    ApproveMovesMoney(given, idx, env, d.token, w.self);
  }

  // ---------------------------------------------------------------------------------------------
  // Three runs that complete a cancelled escrow

  const ALICE := Address("payer")
  const BOB := Address("freelancer")
  const COIN := Address("token")
  const VAULT := Address("escrow")
  const ALL := Env({ALICE, BOB}, 0, 0)

  function Work(amount: I128, status: MilestoneStatus): Milestone { Milestone("work", amount, status) }

  function Lock(ms: seq<Milestone>): Step { Step(CallCreate(ALICE, BOB, COIN, ms, None, 0, 0), ALL) }

  /** An escrow over these milestones is stored, and what payer and vault hold. */
  ghost predicate At(w: World, config: Option<ProtocolConfig>, ms: seq<Milestone>, status: EscrowStatus,
                     payer: int, vault: int) {
    && w.self == VAULT && w.config == config && WellFormed(w) && w.escrow.Some?
    && w.escrow.value == EscrowData(ALICE, BOB, COIN, w.escrow.value.totalAmount, ms, status, None, 0, 0, 0, 0)
    && Balance(w.bank, COIN, ALICE) == payer && Balance(w.bank, COIN, VAULT) == vault
  }

  lemma {:induction false} AfterLock(w: World, config: Option<ProtocolConfig>, ms: seq<Milestone>)
    requires w.self == VAULT && w.config == config && !IsPaused(w) && w.escrow.None? && w.allowed == []
    requires ms != [] && (forall m <- ms :: m.amount > 0)
    requires Total(Amounts, ms) <= I128_MAX && Total(Amounts, ms) <= Balance(w.bank, COIN, ALICE)
    ensures At(Next(w, Lock(ms)), config, ms, Active,
               Balance(w.bank, COIN, ALICE) - Total(Amounts, ms), Balance(w.bank, COIN, VAULT) + Total(Amounts, ms))
  {
    CreateSucceedsIff(w, Lock(ms), COIN, VAULT);
    CreateSucceedsIff(w, Lock(ms), COIN, ALICE);
    WellFormedStep(w, Lock(ms));
  }

  lemma {:induction false} AfterSubmit(w: World, config: Option<ProtocolConfig>, ms: seq<Milestone>, idx: U32,
                                       payer: int, vault: int)
    requires At(w, config, ms, Active, payer, vault) && !IsPaused(w) && idx < |ms| && ms[idx].status == Pending
    ensures At(Next(w, Step(CallSubmitWork(idx), ALL)), config, WithStatus(ms, idx, Submitted), Active, payer, vault)
  {
    WellFormedStep(w, Step(CallSubmitWork(idx), ALL));
  }

  lemma {:induction false} AfterCancel(w: World, config: Option<ProtocolConfig>, ms: seq<Milestone>, payer: int,
                                       vault: int)
    requires At(w, config, ms, Active, payer, vault) && !IsPaused(w) && Total(Owed, ms) <= vault
    ensures At(Next(w, Step(CallCancel, ALL)), config, ms, Cancelled, payer + Total(Owed, ms), vault - Total(Owed, ms))
  {
    RemainingIsOwed(w.escrow.value, 0);
    OwedBounds(ms);
    WellFormedStep(w, Step(CallCancel, ALL));
  }

  lemma {:induction false} AfterGift(w: World, config: Option<ProtocolConfig>, ms: seq<Milestone>,
                                     status: EscrowStatus, payer: int, vault: int, gift: nat)
    requires At(w, config, ms, status, payer, vault) && gift <= payer
    ensures At(Next(w, Step(CallOutside(COIN, ALICE, VAULT, gift), ALL)), config, ms, status,
               payer - gift, vault + gift)
  {
  }

  /** Any status will do. */
  lemma {:induction false} AfterApprove(w: World, config: Option<ProtocolConfig>, ms: seq<Milestone>,
                                        status: EscrowStatus, idx: U32, payer: int, vault: int)
    requires At(w, config, ms, status, payer, vault) && !IsPaused(w) && idx < |ms| && ms[idx].status == Submitted
    requires FeeFits(config, ms[idx].amount) && ms[idx].amount <= vault
    requires config.Some? ==> config.value.feeCollector == VAULT
    ensures var more := WithStatus(ms, idx, Approved);
      var fee := if config.Some? then FeeOf(ms[idx].amount, config.value.feeBps) else 0;
      At(Next(w, Step(CallApprove(idx), ALL)), config, more, if AllApproved(more) then Completed else status,
         payer, vault - ms[idx].amount + fee)
  {
    assert ms[idx] in ms;
    NeededIsCovered(w, ms[idx].amount);
    ApproveIffFunded(w, idx, ALL);
    ApproveMovesMoney(w, idx, ALL, COIN, ALICE);
    ApproveMovesMoney(w, idx, ALL, COIN, VAULT);
    WellFormedStep(w, Step(CallApprove(idx), ALL));
  }

  /** A deployed contract with an empty vault and no allowlist, and a payer who holds the funds. */
  ghost predicate Fresh(w: World, funds: int) {
    && w.self == VAULT && Deployed(w) && w.allowed == []
    && Balance(w.bank, COIN, ALICE) >= funds && (forall t :: Balance(w.bank, t, VAULT) == 0)
  }

  /** The sums over one and over two milestones. */
  lemma {:induction false} SumsOfFew(k: Column, a: Milestone, b: Milestone)
    ensures Total(k, [a]) == Entry(k, a) && Total(k, [a, b]) == Entry(k, a) + Entry(k, b)
  {
    assert [a][..0] == [] && [a, b][..1] == [a];
  }

  /** A sequence of worlds in which each is the one before after the next step is the run. */
  lemma {:induction false} RunIsTrace(ws: seq<World>, run: seq<Step>, n: nat)
    requires |ws| == |run| + 1 && n <= |run| && forall i | 0 <= i < |run| :: ws[i + 1] == Next(ws[i], run[i])
    ensures Run(ws[0], run[..n]) == ws[n]
  {
    if n > 0 {
      RunIsTrace(ws, run, n - 1);
      assert run[..n][..n - 1] == run[..n - 1];
    }
  }

  /** At some point of the run the escrow is cancelled, and at its end completed. */
  ghost predicate Revives(start: World, run: seq<Step>) {
    && (exists n | 0 <= n < |run| ::
            Run(start, run[..n]).escrow.Some? && Run(start, run[..n]).escrow.value.status == Cancelled)
    && Run(start, run).escrow.Some? && Run(start, run).escrow.value.status == Completed
  }

  lemma {:induction false} TraceRevives(ws: seq<World>, run: seq<Step>, n: nat)
    requires |ws| == |run| + 1 && n < |run| && forall i | 0 <= i < |run| :: ws[i + 1] == Next(ws[i], run[i])
    requires ws[n].escrow.Some? && ws[n].escrow.value.status == Cancelled
    requires ws[|run|].escrow.Some? && ws[|run|].escrow.value.status == Completed
    ensures Revives(ws[0], run)
  {
    RunIsTrace(ws, run, n);
    RunIsTrace(ws, run, |run|);
    assert run[..|run|] == run;
  }

  /** An outside gift: create, submit, cancel, gift, approve. */
  lemma {:induction false} CancelledThenCompleted(start: World, amount: I128) returns (run: seq<Step>)
    requires Fresh(start, amount) && amount > 0
    ensures Unsigned(start.self, run) && (forall s <- run :: CreatesUnapproved(s))
    ensures Revives(start, run)
  {
    var pending, submitted := Work(amount, Pending), Work(amount, Submitted);
    run := [Lock([pending]), Step(CallSubmitWork(0), ALL), Step(CallCancel, ALL),
            Step(CallOutside(COIN, ALICE, VAULT, amount), ALL), Step(CallApprove(0), ALL)];
    var payer := Balance(start.bank, COIN, ALICE);
    SumsOfFew(Amounts, pending, pending);
    SumsOfFew(Owed, submitted, submitted);
    AfterLock(start, None, [pending]);
    var created := Next(start, run[0]);
    AfterSubmit(created, None, [pending], 0, payer - amount, amount);
    var done := Next(created, run[1]);
    assert WithStatus([pending], 0, Submitted) == [submitted];
    AfterCancel(done, None, [submitted], payer - amount, amount);
    var cancelled := Next(done, run[2]);
    AfterGift(cancelled, None, [submitted], Cancelled, payer, 0, amount);
    var given := Next(cancelled, run[3]);
    AfterApprove(given, None, [submitted], Cancelled, 0, payer - amount, amount);
    TraceRevives([start, created, done, cancelled, given, Next(given, run[4])], run, 3);
  }

  /** No gift at all: a second milestone that comes in approved and is no smaller. Its amount stays in
      the vault after the refund and pays for the first. */
  lemma {:induction false} PreapprovedRevives(start: World, amount: I128, extra: I128) returns (run: seq<Step>)
    requires Fresh(start, amount + extra) && 0 < amount <= extra && amount + extra <= I128_MAX
    ensures Unsigned(start.self, run) && (forall s <- run :: Apart(start.self, s))
    ensures Revives(start, run)
  {
    var pending, submitted, approved := Work(amount, Pending), Work(amount, Submitted), Work(extra, Approved);
    run := [Lock([pending, approved]), Step(CallSubmitWork(0), ALL), Step(CallCancel, ALL), Step(CallApprove(0), ALL)];
    var rest := Balance(start.bank, COIN, ALICE) - amount - extra;
    SumsOfFew(Amounts, pending, approved);
    SumsOfFew(Owed, submitted, approved);
    AfterLock(start, None, [pending, approved]);
    var created := Next(start, run[0]);
    AfterSubmit(created, None, [pending, approved], 0, rest, amount + extra);
    var done := Next(created, run[1]);
    assert WithStatus([pending, approved], 0, Submitted) == [submitted, approved];
    AfterCancel(done, None, [submitted, approved], rest, amount + extra);
    var cancelled := Next(done, run[2]);
    AfterApprove(cancelled, None, [submitted, approved], Cancelled, 0, rest + amount, extra);
    TraceRevives([start, created, done, cancelled, Next(cancelled, run[3])], run, 3);
  }

  lemma {:induction false} LockAndApprove(w: World, config: ProtocolConfig, one: Milestone, other: Milestone,
                                          paid: Milestone)
    requires w.self == VAULT && w.config == Some(config) && !config.paused && config.feeCollector == VAULT
    requires w.escrow.None? && w.allowed == []
    requires one.status == Submitted && other.status == Submitted && paid == one.(status := Approved)
    requires one.amount > 0 && other.amount > 0 && one.amount + other.amount <= I128_MAX
    requires Balance(w.bank, COIN, VAULT) == 0 && Balance(w.bank, COIN, ALICE) >= one.amount + other.amount
    requires FeeFits(Some(config), one.amount)
    ensures At(Next(Next(w, Lock([one, other])), Step(CallApprove(0), ALL)), Some(config), [paid, other], Active,
               Balance(w.bank, COIN, ALICE) - one.amount - other.amount,
               other.amount + FeeOf(one.amount, config.feeBps))
  {
    SumsOfFew(Amounts, one, other);
    AfterLock(w, Some(config), [one, other]);
    AfterApprove(Next(w, Lock([one, other])), Some(config), [one, other], Active, 0,
                 Balance(w.bank, COIN, ALICE) - one.amount - other.amount, one.amount + other.amount);
    assert WithStatus([one, other], 0, Approved) == [paid, other];
    assert [paid, other][1] == other;
  }

  lemma {:induction false} CancelAndApprove(w: World, config: ProtocolConfig, paid: Milestone, other: Milestone,
                                            payer: int, fee: int)
    requires At(w, Some(config), [paid, other], Active, payer, other.amount + fee)
    requires !config.paused && config.feeCollector == VAULT && FeeFits(Some(config), other.amount)
    requires paid.status == Approved && other.status == Submitted && other.amount <= fee
    ensures var c := Next(w, Step(CallCancel, ALL)); var z := Next(c, Step(CallApprove(1), ALL));
      && c.escrow.Some? && c.escrow.value.status == Cancelled
      && z.escrow.Some? && z.escrow.value.status == Completed
  {
    SumsOfFew(Owed, paid, other);
    AfterCancel(w, Some(config), [paid, other], payer, other.amount + fee);
    AfterApprove(Next(w, Step(CallCancel, ALL)), Some(config), [paid, other], Cancelled, 1, payer + other.amount, fee);
  }

  /** No gift either, and nothing approved at creation: the vault is its own fee collector, and the fee
      of one milestone covers the other. It stays in the vault after the refund and pays for it. */
  lemma {:induction false} SelfCollectingRevives(start: World, big: I128, small: I128,
                                                 bps: U32) returns (run: seq<Step>)
    requires Fresh(start, big + small) && big > 0 && 0 < small <= FeeOf(big, bps) && big + small <= I128_MAX
    requires var config := ProtocolConfig(ALICE, false, bps, VAULT);
      FeeFits(Some(config), big) && FeeFits(Some(config), small)
    ensures Unsigned(start.self, run)
    ensures forall s <- run :: CreatesUnapproved(s) && !s.call.CallOutside?
    ensures Revives(start, run)
  {
    var one, other, paid := Work(big, Submitted), Work(small, Submitted), Work(big, Approved);
    var config := ProtocolConfig(ALICE, false, bps, VAULT);
    run := [Step(CallInit(ALICE, bps, VAULT), ALL), Lock([one, other]), Step(CallApprove(0), ALL),
            Step(CallCancel, ALL), Step(CallApprove(1), ALL)];
    var configured := Next(start, run[0]);
    LockAndApprove(configured, config, one, other, paid);
    var created := Next(configured, run[1]);
    var half := Next(created, run[2]);
    CancelAndApprove(half, config, paid, other, Balance(start.bank, COIN, ALICE) - big - small, FeeOf(big, bps));
    var cancelled := Next(half, run[3]);
    TraceRevives([start, configured, created, half, cancelled, Next(cancelled, run[4])], run, 4);
  }

  /** In numbers: a payer with 105 units has all three. */
  lemma {:induction false} SuchRunsExist() returns (start: World, gift: seq<Step>, preapproved: seq<Step>,
                                         ownFee: seq<Step>)
    ensures Fresh(start, 105)
    ensures Unsigned(VAULT, gift + preapproved + ownFee)
    ensures Revives(start, gift) && Revives(start, preapproved) && Revives(start, ownFee)
  {
    start := World(VAULT, Bank(map[(COIN, ALICE) := 105], []), None, None, []);
    gift := CancelledThenCompleted(start, 5);
    preapproved := PreapprovedRevives(start, 5, 100);
    ownFee := SelfCollectingRevives(start, 100, 5, 1000);
  }

  /** `create` succeeds exactly if nothing is stored yet, the milestones are sound and sum within i128,
      the allowlist is empty or lists the token, and the payer signed and can pay; it then locks
      exactly the sum. */
  lemma {:induction false} CreateSucceedsIff(w: World, s: Step, t: Address, a: Address)
    requires s.call.CallCreate?
    ensures var c := s.call; var total := Total(Amounts, c.milestones);
      && (Apply(w, s).outcome.Ok? <==>
            && !IsPaused(w) && w.escrow.None?
            && c.milestones != [] && (forall m <- c.milestones :: m.amount > 0) && total <= I128_MAX
            && (w.allowed == [] || c.token in w.allowed)
            && c.payer in s.env.signers && Balance(w.bank, c.token, c.payer) >= total)
      && (Apply(w, s).outcome.Ok? ==>
            Balance(Next(w, s).bank, t, a) == Balance(w.bank, t, a)
              + (if t == c.token && a == w.self then total else 0)
              - (if t == c.token && a == c.payer then total else 0))
  {
    var checked := CheckedTotal(s.call.milestones);
  }

  /** Against the allowlist as the set it stands for: a listed token passes, any token passes while the
      set is empty, and `TokenNotAllowed` is returned for no other reason. */
  lemma {:induction false} AllowlistGuardsCreate(w: World, s: Step, edits: seq<Edit>)
    requires s.call.CallCreate? && w.allowed == ListAfter(edits)
    ensures Apply(w, s).outcome.Ok? ==> SetAfter(edits) == {} || s.call.token in SetAfter(edits)
    ensures Apply(w, s).outcome == Err(TokenNotAllowed) ==> SetAfter(edits) != {} && s.call.token !in SetAfter(edits)
  {
    AllowlistRefinesSet(edits, AddToken(s.call.token));
    if w.allowed != [] { assert w.allowed[0] in Elements(w.allowed); }
  }

  /** `create` stores the statuses it is given. Locking and cancelling returns everything exactly if
      none of the milestones came in already approved; the others' amounts stay in the vault. */
  lemma {:induction false} CancelReturnsAllIff(w: World, s: Step, env: Env)
    requires w.escrow.None? && s.call.CallCreate? && Apply(w, s).outcome.Ok?
    requires w.self !in s.env.signers && s.call.payer in env.signers
    ensures var c := Cancel(Next(w, s), env);
      && c.outcome.Ok?
      && Balance(c.world.bank, s.call.token, w.self)
           == Balance(w.bank, s.call.token, w.self) + Total(Paid, s.call.milestones)
      && (NoneApproved(s.call.milestones) <==>
            Balance(c.world.bank, s.call.token, w.self) == Balance(w.bank, s.call.token, w.self))
  {
    var d := Next(w, s).escrow.value;
    RemainingIsOwed(d, env.unitAmount);
    OwedBounds(d.milestones);
    PaidPlusOwed(d.milestones);
  }

  // ---------------------------------------------------------------------------------------------
  // Whose fee it is

  /** Fee rate and collector in force; without a config there is no fee. */
  function Terms(w: World): (U32, Address) { (FeeRate(w), Collector(w)) }

  /** The terms an escrow is paid under can change after its creation exactly if it was created before
      the config: `init` is open to anybody until then. */
  lemma {:induction false} TermsChangeIff(w: World)
    ensures (exists run :: Unsigned(w.self, run) && Terms(Run(w, run)) != Terms(w)) <==> w.config.None?
  {
    if w.config.None? {
      var admin := Address("outsider" + w.self.strkey);
      assert |admin.strkey| > |w.self.strkey|;
      var s := Step(CallInit(admin, 10000, admin), Env({admin}, 0, 0));
      RunSnoc(w, [], s);
      assert [] + [s] == [s];
      assert Terms(Run(w, [s])) == (10000, admin) != Terms(w);
      assert Unsigned(w.self, [s]);
    } else {
      forall run ensures Terms(Run(w, run)) == Terms(w) { ConfigIsFixed(w, run); }
    }
  }

  /** And then to anything: an outsider's `init` at 100 percent after `create` sends the next milestone
      the payer approves whole to the outsider and nothing to the freelancer. */
  lemma {:induction false} LateInitTakesAll(w: World, outsider: Address, idx: U32, own: Env, env: Env)
    requires WellFormed(w) && w.config.None? && outsider in own.signers
    requires w.escrow.Some? && idx < |w.escrow.value.milestones|
    requires outsider != w.self && outsider != w.escrow.value.freelancer && w.escrow.value.freelancer != w.self
    requires w.escrow.value.milestones[idx].amount * 10000 <= I128_MAX
    requires Approve(w, idx, env).outcome.Ok?
    ensures var d := w.escrow.value; var amount := d.milestones[idx].amount;
      var before, taken := Approve(w, idx, env).world, Next(w, Step(CallInit(outsider, 10000, outsider), own));
      var after := Approve(taken, idx, env);
      && Balance(before.bank, d.token, d.freelancer) == Balance(w.bank, d.token, d.freelancer) + amount
      && after.outcome.Ok?
      && Balance(after.world.bank, d.token, outsider) == Balance(w.bank, d.token, outsider) + amount
      && Balance(after.world.bank, d.token, d.freelancer) == Balance(w.bank, d.token, d.freelancer)
  {
    var d := w.escrow.value;
    var taken := Next(w, Step(CallInit(outsider, 10000, outsider), own));
    assert d.milestones[idx] in d.milestones;
    FeeOfPositive(d.milestones[idx].amount, 10000);
    ApproveIffFunded(w, idx, env);
    ApproveIffFunded(taken, idx, env);
    ApproveMovesMoney(w, idx, env, d.token, d.freelancer);
    ApproveMovesMoney(taken, idx, env, d.token, outsider);
    ApproveMovesMoney(taken, idx, env, d.token, d.freelancer);
  }
}
