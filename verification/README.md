# StarEscrow: model and proofs

Dafny models of StarEscrow's milestone escrow contract, its pooled escrow factory, the rate limiter
and token allowlist of its storage layer, and the `.env` update of its command-line client, with
proofs about every run of them. `dafny verify dfyconfig.toml` checks the whole project.

## How it is modelled

**Ledger.** A `Bank` holds the balance of every address in every token and a log of all transfers.
`Transfer` is the one of SEP-41: a negative amount or an overdraft is refused. Every logged transfer
carries a label (deposit, fee, payout, refund, outside) that no outcome depends on; the money
theorems are sums over the log.

**Calls.** The signers and the ledger time are parameters of each call. A call ends in `Ok`, an error
code, or a `Panic` (missing record or signature, integer overflow, refused transfer); the last two
are rolled back, so they leave record, config, ledger and events unchanged. Integer widths are those
of the source, and overflow panics, as the workspace's release profile asks (`Cargo.toml:11`).

**Two forms.** Each entry point exists as a function on values (`EscrowSpec`, `FactorySpec`) and as a
method of a class that updates its fields in the source's order (`EscrowContract.Contract`,
`FactoryContract.Factory`, `RateLimiter.Limiter`, `Allowlist.Storage`); every method's contract says
that its outcome and whole new state are those of the function. Theorems are about runs: any
sequence of calls, succeeding or failing, mixed with transfers that somebody else makes, from a
freshly deployed contract whose ledger may already hold anything.

**Hypotheses.** `Unsigned`: the contract's own address signs nothing. `CreatesUnapproved`: milestones
are not handed to `create` as already approved. `ClosedWorld` adds that the vault starts empty,
nobody else sends it tokens, and its address is not made payer, freelancer or fee collector. Ledger
time needs to be monotone only for the rate limiter. `fee_bps` is never bounded: where a fee above
the amount would make a payment fail, the theorem says so.

**Induction.** Every lemma switches automatic induction off, so that its body is its whole proof.

| file | contents |
|---|---|
| `Ledger` | integer types, balances, transfer, sums over the log |
| `EscrowSpec`, `EscrowSums`, `EscrowContract` | the escrow on values, sums over milestones, the escrow as a class |
| `EscrowMoney`, `EscrowSettlement`, `EscrowClosedWorld`, `EscrowLimits`, `EscrowFees` | where the money is |
| `EscrowPreapproved`, `EscrowCompletion` | milestones that come in approved; when an escrow can be completed |
| `EscrowHistory`, `EscrowAnswers`, `EscrowRecurring` | the stored state as its history; success and errors of every call; recurring money |
| `EscrowTiming`, `EscrowProgress` | config, pause, deadlines, schedule; termination, order, consent |
| `FactorySpec`, `FactoryContract`, `FactoryInvariants`, `FactoryEvents`, `FactoryRefinement` | the factory |
| `RateLimiter`, `Allowlist`, `EnvFile` | the rest |

## Where the code differs from its documentation

The model follows the code.

- `docs/PROTOCOL.md:50` calls completed, cancelled and expired terminal. `approve` has no status
  check, so this holds because the vault is empty: `TerminalIsFinal` proves it for the closed world,
  `ApproveIffFunded` gives the exact condition anywhere. Examples of runs that break it are an outside gift
  (`CancelledThenCompleted`), an amount that came in approved (`PreapprovedRevives`) and a vault that
  collects its own fees (`SelfCollectingRevives`); `LateApprovalSpendsSurplus` says where the money
  can come from at all.
- `docs/PROTOCOL.md:325` says that whoever holds the admin key cannot steal locked funds, and that fees
  change for new escrows only. `init` is open to anybody until a config is stored and may come after
  `create`; then it sets the fee of escrows that exist (`LateInitTakesAll`). Afterwards nothing can
  change it, not even for new ones (`TermsChangeIff`, `ConfigIsFixed`).
- `docs/PROTOCOL.md:331` says that `cancel` is closed once work is submitted. The escrow never becomes
  `WorkSubmitted` (`WellFormedStep`) and `cancel` stays open while it is active
  (`RefundSucceedsIff`). The factory does keep the rule (`FactoryInvariants.SettlingSucceedsIff`).
- `contracts/escrow/src/lib.rs:205-216` builds a pair of net amount and fee and passes it on as one
  amount; it is read as destructured, the way line 266 does it.
- `contracts/escrow/src/lib.rs:268-316` reads a field `data.amount` that the record lacks. The model
  supplies an arbitrary value for it at each call (`unitAmount`), so what is proved of recurring
  escrows holds whatever it is. `cancel` and `expire` add the released part to the refund, as written,
  where `contracts/escrow/tests/escrow_tests.rs:376-402` expects it subtracted: `ReleasedNeverRefunds`
  and `RecurringClosingIff` say what follows.
- `contracts/escrow/src/lib.rs:144` stores the milestone statuses it is given; `CancelReturnsAllIff`,
  `PreapprovedStays` and `CompletableIff` say what that leads to.

## Model

| member | source | states |
|---|---|---|
| `EscrowMoney.Conservation` | contracts/escrow/src/lib.rs:114-227 | For every run in any world, recurring or not and whatever the fee: vault balance + payouts + fees + refunds = balance at deployment + locked total + everything else that was sent to the vault. |
| `EscrowSettlement.ActiveIsSolvent` | contracts/escrow/src/lib.rs:114-227 | In any world in which no milestone comes in approved, an active escrow that has made no recurring release always has something left to approve, and its vault holds exactly the unapproved amounts plus the opening balance plus other receipts (outside transfers, or fees, payouts and refunds to itself), so never less than it owes. |
| `EscrowClosedWorld.ClosedWorldConservation` | contracts/escrow/src/lib.rs:306-371 | In the closed world, as long as no recurring release was made: the vault holds the unapproved milestones while the escrow is active or completed and exactly 0 once it is cancelled or expired; payouts + fees + refunds + balance = total; completed holds if and only if every milestone is approved. |
| `EscrowClosedWorld.TerminalIsFinal` | contracts/escrow/src/lib.rs:192-227 | After any closed-world run that left the escrow completed, cancelled or expired without a recurring release, every continuation keeps status and milestones and moves no token out of the vault, although `approve` never reads the status. |
| `EscrowClosedWorld.NoLateApproval` | contracts/escrow/src/lib.rs:192-227 | The reason: on a closed escrow the vault is empty, so an approval that succeeds proves the escrow active, for every fee rate. |
| `EscrowClosedWorld.ApproveSucceedsIff` | contracts/escrow/src/lib.rs:192-227 | In every reachable closed-world state without a recurring release `approve` succeeds if and only if not paused, the payer signed, the milestone is submitted, amount * fee_bps fits i128 and the fee does not exceed the amount, and the escrow is active: never short of funds when it should pay. |
| `EscrowClosedWorld.RefundSucceedsIff` | contracts/escrow/src/lib.rs:306-371 | In every reachable closed-world state without a recurring release `cancel` succeeds if and only if not paused, active and payer-signed (whatever was submitted), `expire` if in addition a deadline exists and has passed; both return everything still owed to the payer. |
| `EscrowClosedWorld.VaultHoldsWhatIsOwed` | contracts/escrow/src/lib.rs:306-371 | From the invariant: the vault balance is the sum of the unapproved milestones, or 0 after a refund. |
| `EscrowClosedWorld.SettledStep` | contracts/escrow/src/lib.rs:98-427 | The closed-world invariant (books, accounts, roles apart, refunds, no gifts, zero opening) is kept by every entry point, succeeding or failing. |
| `EscrowClosedWorld.RemainingIsOwed` | contracts/escrow/src/lib.rs:315-316 | What `cancel` and `expire` compute as remaining is the sum of the unapproved milestones when no recurring release was made; the arithmetic never overflows. |
| `EscrowClosedWorld.PayOutIff` | contracts/escrow/src/lib.rs:204-218 | A payment of fee then net amount goes through if and only if the fee fits and the vault holds the amount, or, where the vault is its own fee collector, the larger of fee and net amount. |
| `EscrowLimits.ApproveIffFunded` | contracts/escrow/src/lib.rs:192-227 | In any world, any status and with any fee collector, `approve` succeeds if and only if its checks pass and the vault holds what the payment needs: the exact condition under which finality fails. |
| `EscrowLimits.ClosedChangesIff` | contracts/escrow/src/lib.rs:170-427 | A cancelled or expired escrow changes, in status or milestones, under a call if and only if that call is an approval meeting exactly this condition. |
| `EscrowPreapproved.LateApprovalSpendsSurplus` | contracts/escrow/src/lib.rs:192-227 | In every reachable state of any world, an approval on a cancelled or expired escrow spends only what came in approved, the opening balance, and what the vault received other than as a deposit; without any of that none succeeds. |
| `EscrowLimits.GiftRevivesClosed` | contracts/escrow/src/lib.rs:192-227 | Finality is false of the code in an open world: after a gift of the amount to the vault, a submitted milestone of any cancelled or expired escrow is approved, and the escrow turns completed if it was the last one. |
| `EscrowLimits.CancelledThenCompleted` | contracts/escrow/src/lib.rs:192-227 | A run from deployment for every amount: create, submit, cancel, gift, approve; a cancelled escrow becomes completed. |
| `EscrowLimits.PreapprovedRevives` | contracts/escrow/src/lib.rs:138-227 | The same without a gift, by a milestone that came in approved and is no smaller than the cancelled one. |
| `EscrowLimits.SelfCollectingRevives` | contracts/escrow/src/lib.rs:192-227 | The same without a gift and with nothing approved at creation, whenever the vault is its own fee collector and the fee of one milestone covers the other. |
| `EscrowLimits.SuchRunsExist` | contracts/escrow/src/lib.rs:192-227 | One concrete deployment has all three runs. |
| `EscrowLimits.CancelReturnsAllIff` | contracts/escrow/src/lib.rs:114-148 | `create` stores the milestone statuses it is given: create then cancel returns everything if and only if none of them came in approved; otherwise exactly those amounts stay behind. |
| `EscrowPreapproved.PreapprovedStays` | contracts/escrow/src/lib.rs:138-148 | Over every run after `create`, in any world and as long as no recurring release was made: vault balance + refund = unapproved amounts + amounts that came in approved + opening balance + other receipts (outside transfers, or fees, payouts and refunds to the vault itself), and nothing is refunded while active. |
| `EscrowPreapproved.CancelLeavesThePreapproved` | contracts/escrow/src/lib.rs:306-326 | At any such later point, in any world, `cancel` succeeds if and only if not paused, active and payer-signed, and if the payer is not the vault it leaves behind exactly the amounts that came in approved beyond opening balance and other receipts: none if and only if no milestone came in approved. |
| `EscrowPreapproved.UnpaidStep` | contracts/escrow/src/lib.rs:170-371 | No call but a recurring release changes the approved amounts that were paid to nobody. |
| `EscrowCompletion.CompletableIff` | contracts/escrow/src/lib.rs:170-227 | Liveness, in every reachable state of any world: an active escrow without a recurring release can still be completed without one, and without the vault's own signature, if and only if something is left to approve, the fee of every unapproved milestone fits, the payer is not the vault itself, and neither is the freelancer if something is still to be submitted (for up to 2^32-1 milestones, the bound of a host vector). |
| `EscrowCompletion.CompletingRun` | contracts/escrow/src/lib.rs:170-227 | The run that does it: submit and approve one open milestone after the other, each call signed by the one party it needs, never by the vault. |
| `EscrowCompletion.StuckStays` | contracts/escrow/src/lib.rs:192-227 | An escrow with every milestone approved that is not completed stays so under every call but a recurring release. |
| `EscrowLimits.CreateSucceedsIff` | contracts/escrow/src/lib.rs:98-167 | `create` succeeds if and only if not paused, nothing stored, milestones non-empty, positive and summing within i128, the token allowed, and the payer signed and can pay; it then moves exactly the sum and nothing else. |
| `EscrowLimits.AllowlistGuardsCreate` | contracts/escrow/src/lib.rs:129-132 | Against the set that any history of allowlist edits stands for: a created escrow has a listed token unless that set is empty, and `TokenNotAllowed` is returned for no other reason. |
| `EscrowSettlement.ApproveMovesMoney` | contracts/escrow/src/lib.rs:204-218 | In any world an approval changes balances only in the escrow's token: fee to the collector, the rest to the freelancer, the whole amount out of the vault, also when these coincide. |
| `EscrowSettlement.ApprovePays` | contracts/escrow/src/lib.rs:204-219 | Fee and net amount of a successful approval are non-negative, add up to the milestone exactly, and are what the ledger records. |
| `EscrowSettlement.AccountsStep` | contracts/escrow/src/lib.rs:98-427 | Every entry point keeps: fees + payouts = approved amounts, no refund while active, active has something unapproved, completed has not. |
| `EscrowMoney.BooksStep` | contracts/escrow/src/lib.rs:98-427 | Every entry point keeps: the record is well formed, its total is the milestone sum and is exactly what was ever deposited, and tokens leave the vault only as fee, payout or refund. |
| `EscrowMoney.LogGrowsByMoves` | contracts/escrow/src/lib.rs:98-371 | A call appends its own transfers to the ledger, at most two, none if it fails, and they explain every change of every balance. |
| `EscrowMoney.WellFormedStep` | contracts/escrow/src/lib.rs:98-427 | The shape of the stored record (positive milestones, total is their sum, never `WorkSubmitted`, releases within the agreed count) survives every call. |
| `EscrowFees.FeeRounding` | contracts/escrow/src/lib.rs:205-223 | With the config fixed before the first approval and no recurring release: after k approvals the collected fees are at most floor(approved sum * fee_bps / 10000) and short of it by at most k-1, payouts are the exact rest; on completion the approved sum is the total and k = n. |
| `EscrowLimits.TermsChangeIff` | contracts/escrow/src/lib.rs:35-53 | Fee rate and collector can still change over some run not signed by the vault if and only if no config is stored yet. |
| `EscrowLimits.LateInitTakesAll` | contracts/escrow/src/lib.rs:35-53 | While there is none, an outsider's `init` at 100 percent makes the next approval pay the whole milestone to the outsider and nothing to the freelancer. |
| `EscrowSums.FeesAgainstWhole` | contracts/escrow/src/lib.rs:205-211 | Sum of truncated fees against the fee of the sum, bounded on both sides. |
| `EscrowProgress.RunsTerminate` | contracts/escrow/src/lib.rs:170-371 | In any run the successful submits and approves number exactly the drop of 2*pending + submitted, so at most 2n, and at most one `cancel` or `expire` succeeds. |
| `EscrowProgress.OrderIndependence` | contracts/escrow/src/lib.rs:170-227 | Two closed-world runs that complete the same escrow without a change of freelancer or a recurring release end with equal balances for everybody, whatever the order of milestones and calls. |
| `EscrowProgress.CompletionPaysWhatIsDue` | contracts/escrow/src/lib.rs:192-227 | The reason: the balances after completion are a function of the world the run began in. |
| `EscrowProgress.OnlyThePayerReleases` | contracts/escrow/src/lib.rs:192-371 | Apart from a recurring release, tokens leave the vault only in a call the current payer signed. |
| `EscrowProgress.NothingWithoutConsent` | contracts/escrow/src/lib.rs:170-407 | Over any run: a payer who never signs stays the payer and no milestone becomes approved; a freelancer who never signs stays the freelancer and no milestone becomes submitted. |
| `EscrowProgress.NoMoneyWithoutThePayer` | contracts/escrow/src/lib.rs:192-371 | Over any run in which the payer never signs and no recurring release goes through, no token leaves the vault, neither as payment nor as refund. |
| `EscrowProgress.PaidWorkWasSubmittedAndApproved` | contracts/escrow/src/lib.rs:170-227 | A milestone that went from pending to approved was first submitted by a successful call under the signature of the freelancer of that moment and later approved by a successful call under that of the payer of that moment. |
| `EscrowProgress.RoleStep` | contracts/escrow/src/lib.rs:385-407 | A role changes only by its holder's own signed transfer, to the address named in it. |
| `EscrowTiming.ConfigIsFixed` | contracts/escrow/src/lib.rs:35-95 | Over any run admin, fee_bps and fee collector never change once set. |
| `EscrowTiming.ConfigCameFromInit` | contracts/escrow/src/lib.rs:35-53 | A config in force was set by one successful `init` call of the run, made while there was none and signed by its admin. |
| `EscrowTiming.PauseFreezes` | contracts/escrow/src/lib.rs:66-95 | Between a pause and the next admin-signed unpause the record and config are unchanged and the contract makes no transfer; without outside transfers nothing changes at all. |
| `EscrowTiming.PausedStep` | contracts/escrow/src/lib.rs:460-465 | While paused every escrow entry point returns `Paused`. |
| `EscrowTiming.DeadlinesOnlyGrow` | contracts/escrow/src/lib.rs:410-427 | Presence of a deadline never changes after create, and stored deadlines never decrease along a run. |
| `EscrowTiming.DeadlineStep` | contracts/escrow/src/lib.rs:410-427 | A deadline changes only by a payer-signed `extend_deadline`, to a strictly later time. |
| `EscrowTiming.ExpiryIsPastEveryDeadline` | contracts/escrow/src/lib.rs:342-371 | An `expire` that succeeds at time T proves T later than every deadline the escrow ever had. |
| `EscrowTiming.Schedule` | contracts/escrow/src/lib.rs:245-292 | Over any run: releases number what the record says and at most the agreed count, and any two are at least as many intervals apart as lie between them. |
| `EscrowTiming.ScheduleFromCreation` | contracts/escrow/src/lib.rs:138-154 | After k releases of an escrow created at t0, last_release_time >= t0 + k * interval and k <= recurrence_count. |
| `EscrowTiming.RecurrenceCompleteIsUnreachable` | contracts/escrow/src/lib.rs:254-256 | No run reaches the branch that returns `RecurrenceComplete`. |
| `EscrowHistory.RecordIsItsHistory` | contracts/escrow/src/lib.rs:98-427 | In every reachable state a record exists if and only if a `create` succeeded, and payer, freelancer, deadline, release clock, release count, token, interval, recurrence count and total are what the last successful call naming them said, or else that `create`. |
| `EscrowHistory.MilestonesAreTheirHistory` | contracts/escrow/src/lib.rs:170-227 | In every reachable state each milestone keeps the description and amount it came in with, and is approved if and only if it came in so or an approval of it succeeded, submitted if and only if not approved and it came in so or a submission of it succeeded. |
| `EscrowHistory.StatusIsTheLastMark` | contracts/escrow/src/lib.rs:98-371 | In every reachable state the status is what the last marking call says: created Active, cancelled Cancelled, expired Expired, the approval that left nothing open or the last agreed release Completed. |
| `EscrowHistory.ClosedByItsName` | contracts/escrow/src/lib.rs:306-371 | In every reachable state the status is Expired if and only if the one successful closing call was `expire` and nothing completed the escrow since, Cancelled likewise with `cancel`; at most one closing call succeeds. |
| `EscrowHistory.ConfigIsItsHistory` | contracts/escrow/src/lib.rs:35-95 | In every reachable state the config is what the one successful `init` said, and paused if and only if the last successful switch was `pause`. |
| `EscrowHistory.ExpireByHistory` | contracts/escrow/src/lib.rs:342-371 | In the closed world, before a first release, `expire` succeeds if and only if the successful calls so far say so: created, not closed or completed since, not paused last, payer by creation or last transfer signed, and now later than the deadline given at creation or at the last successful extension. |
| `EscrowHistory.ApproveByHistory` | contracts/escrow/src/lib.rs:192-227 | Likewise `approve`: submitted or came in so, not approved since, and its fee under the config set by `init` fits. |
| `EscrowAnswers.ErrorsMeanWhatTheySay` | contracts/escrow/src/lib.rs:35-465 | For every call in every world each error code is returned if and only if its condition holds (14 conditions, with the order of the checks), and a call that fails changes nothing. |
| `EscrowAnswers.CheckedTotalFails` | contracts/escrow/src/lib.rs:114-123 | The sum fails as the first milestone that spoils it does: not positive, or overflowing. |
| `EscrowAnswers.PauseHolds` | contracts/escrow/src/lib.rs:66-74 | After a successful `pause`, over every continuation without an admin-signed `unpause`, the contract is paused, the record is unchanged and every guarded call answers `Paused`. |
| `EscrowAnswers.SwitchIff` | contracts/escrow/src/lib.rs:66-95 | `pause` and `unpause` succeed if and only if a config is stored and its admin signed; then the contract is paused, respectively not, and nothing else changed. |
| `EscrowAnswers.InitIff` | contracts/escrow/src/lib.rs:35-53 | `init` succeeds if and only if no config is stored and the admin signed; every later `init` answers `AlreadyExists`. |
| `EscrowAnswers.SubmitIff` | contracts/escrow/src/lib.rs:170-189 | `submit_work` succeeds if and only if unpaused, active, in range, pending and freelancer-signed; exactly that milestone changes. |
| `EscrowAnswers.RoleTransferIff` | contracts/escrow/src/lib.rs:385-407 | A role transfer succeeds if and only if unpaused and signed by the holder, in any status, and changes that role only, to the address named. |
| `EscrowAnswers.ExtendIff` | contracts/escrow/src/lib.rs:410-427 | `extend_deadline` succeeds if and only if unpaused, payer-signed and later than an existing deadline; the deadline is then exactly the new one, and no `expire` succeeds up to it. |
| `EscrowAnswers.CreateStores` | contracts/escrow/src/lib.rs:138-163 | After a successful `create` every field is the one asked for, active, without releases, with the call's time as clock. |
| `EscrowAnswers.ReleaseIff` | contracts/escrow/src/lib.rs:245-292 | In every world a release succeeds if and only if unpaused, active, recurring with releases left, due without overflow, and payable; the status is then Completed if it was the last agreed one and Active otherwise. |
| `EscrowAnswers.AgreedReleasesComplete` | contracts/escrow/src/lib.rs:277-289 | In every reachable state an escrow whose release count reached the agreed count is completed. |
| `EscrowAnswers.ClosingLeaves` | contracts/escrow/src/lib.rs:306-371 | In every world a successful `cancel` leaves exactly Cancelled and a successful `expire` exactly Expired, and nothing else of the record changed. |
| `EscrowAnswers.ClosingIff` | contracts/escrow/src/lib.rs:306-371 | In every well-formed world, with or without releases, both succeed if and only if their checks pass and unapproved amounts plus unit amount times releases fits and is in the vault. |
| `EscrowRecurring.RecurringAccount` | contracts/escrow/src/lib.rs:245-371 | Over every run in any world, with one positive amount per release: vault balance + refund = unapproved amounts + surplus (what came in approved, opening balance, other receipts) - amount * releases; no refund while active. |
| `EscrowRecurring.RecurringClosingIff` | contracts/escrow/src/lib.rs:306-371 | So after k releases `cancel` and `expire` can succeed only with twice the released sum as surplus: the exact condition, in any world. |
| `EscrowRecurring.ReleasedNeverRefunds` | contracts/escrow/src/lib.rs:316 | In the closed world an escrow that has made a release can never be cancelled or expired, because the refund adds the released part. |
| `EscrowSums.TruncatesTowardZero` | contracts/escrow/src/lib.rs:207 | The fee division truncates toward zero for either sign. |
| `EscrowSpec.CheckedTotal` | contracts/escrow/src/lib.rs:114-123 | The running sum ends well if and only if all amounts are positive and their sum fits i128, and is then that sum. |
| `Ledger.Transfer` | contracts/escrow/src/lib.rs:136-137 | The SEP-41 transfer: succeeds if and only if 0 <= amount <= balance of the sender, moves exactly the amount, nets to zero on a transfer to oneself. |
| `EscrowContract.Contract.Init` | contracts/escrow/src/lib.rs:35-53 | The in-place `init` has exactly the new state and outcome of its specification; keeps the record well formed (likewise all methods below). |
| `EscrowContract.Contract.Pause` | contracts/escrow/src/lib.rs:66-74 | Sets the pause flag under the admin's signature, or panics unchanged. |
| `EscrowContract.Contract.Unpause` | contracts/escrow/src/lib.rs:87-95 | Clears it likewise. |
| `EscrowContract.Contract.TotalAmount` | contracts/escrow/src/lib.rs:114-123 | The accumulating loop computes the checked sum, failing as the first bad milestone makes it fail. |
| `EscrowContract.Contract.Create` | contracts/escrow/src/lib.rs:98-167 | Every branch of `create`, in the code's order, with the state it leaves. |
| `EscrowContract.Contract.SubmitWork` | contracts/escrow/src/lib.rs:170-189 | Every branch of `submit_work`; one milestone becomes submitted. |
| `EscrowContract.Contract.Pay` | contracts/escrow/src/lib.rs:204-218 | The fee computation and two transfers, in order, with overflow and refused transfers. |
| `EscrowContract.Contract.AllAreApproved` | contracts/escrow/src/lib.rs:222-224 | The scan is true if and only if every milestone is approved. |
| `EscrowContract.Contract.Approve` | contracts/escrow/src/lib.rs:192-227 | Every branch of `approve`; the milestone, the status and the ledger afterwards. |
| `EscrowContract.Contract.ReleaseRecurring` | contracts/escrow/src/lib.rs:245-292 | Every branch of `release_recurring`, with the overflow of the next due time. |
| `EscrowContract.Contract.Released` | contracts/escrow/src/lib.rs:315 | The loop over approved milestones; no overflow is possible in it or in the subtraction from the total. |
| `EscrowContract.Contract.Refund` | contracts/escrow/src/lib.rs:314-323 | The refund that `cancel` and `expire` share, as the code computes it. |
| `EscrowContract.Contract.Cancel` | contracts/escrow/src/lib.rs:306-326 | Every branch of `cancel`. |
| `EscrowContract.Contract.Expire` | contracts/escrow/src/lib.rs:342-371 | Every branch of `expire`. |
| `EscrowContract.Contract.TransferFreelancer` | contracts/escrow/src/lib.rs:385-395 | Every branch; only the freelancer changes. |
| `EscrowContract.Contract.TransferPayer` | contracts/escrow/src/lib.rs:397-407 | Every branch; only the payer changes. |
| `EscrowContract.Contract.ExtendDeadline` | contracts/escrow/src/lib.rs:410-427 | Every branch; only the deadline changes. |
| `EscrowContract.Contract.AssertNotPaused` | contracts/escrow/src/lib.rs:460-465 | Paused if and only if a config is stored and says so. |
| `FactoryInvariants.PooledSolvency` | contracts/factory/src/lib.rs:123-202 | In every reachable state and every token the pooled vault holds exactly the amounts of all open records in that token, plus its opening balance, plus other receipts (outside transfers, or payouts and refunds to its own address). |
| `FactoryInvariants.SettlingSucceedsIff` | contracts/factory/src/lib.rs:159-202 | In every reachable state approve, cancel and submit succeed if and only if the record exists, is in the right state and the right party signed (never for lack of funds), and pay exactly the record's amount to the right party. |
| `FactoryInvariants.CreateSucceedsIff` | contracts/factory/src/lib.rs:123-156 | In every reachable state a creation succeeds if and only if the amount is positive, the payer signed and can pay and ids are left; it takes an unused id, changes no other record and moves exactly the amount. |
| `FactoryInvariants.ListsAgree` | contracts/factory/src/lib.rs:56-88 | In every reachable state ids are dense and each party's list is the strictly ascending list of exactly the ids whose record names that party. |
| `FactoryInvariants.VaultCoversEach` | contracts/factory/src/lib.rs:171-202 | The vault can always pay any single open record. |
| `FactoryInvariants.ErrorsMeanWhatTheySay` | contracts/factory/src/lib.rs:123-202 | For every call in every world each error code is returned if and only if its condition holds, and a call that fails changes nothing. |
| `FactoryInvariants.RecordsOnlyAdvance` | contracts/factory/src/lib.rs:159-202 | Over every run a record keeps parties, token, amount and description, and its status only advances: active to submitted to completed, or active to cancelled. |
| `FactoryInvariants.ConsistentStep` | contracts/factory/src/lib.rs:123-202 | Density, solvency in every token and index agreement are kept by every call, succeeding or failing. |
| `FactoryInvariants.IndexedStepFor` | contracts/factory/src/lib.rs:139-152 | One call keeps one index equal to the ascending filter over all records. |
| `FactoryRefinement.PoolRefinesSingles` | contracts/factory/src/lib.rs:159-202 | The pool refines independent single escrows with private vaults: the calls on one id, replayed alone, give the same record, holdings, result of every call and payments, whatever happens on other ids. |
| `FactoryRefinement.EachIdIsPaidOnce` | contracts/factory/src/lib.rs:171-202 | Over every run the pool pays out for each id exactly its amount once it is completed or cancelled, and nothing before. |
| `FactoryRefinement.SingleConserves` | contracts/factory/src/lib.rs:123-202 | The isolated escrow, under any calls: founded at most once, holds its amount while open, has paid exactly that amount once settled. |
| `FactoryRefinement.StepRefines` | contracts/factory/src/lib.rs:66-71 | One call on the id is answered as the isolated escrow answers it; any other call leaves the id alone. |
| `FactoryEvents.LogReplaysToObligations` | contracts/factory/src/lib.rs:94-113 | The event log rebuilds party, amount and fate of every id; an id is created in it if and only if below the counter, settled if and only if completed or cancelled; created less settled amounts are the open obligations. |
| `FactoryEvents.LegalLogCreatesOnce` | contracts/factory/src/lib.rs:150-154 | In a log that replays, every id is created at most once and keeps the parties and amount of that event. |
| `FactoryEvents.LegalLogSettlesOnce` | contracts/factory/src/lib.rs:171-202 | In a log that replays, every id is settled at most once, after its creation, with the same amount and the right party. |
| `FactoryEvents.LoggedStep` | contracts/factory/src/lib.rs:123-202 | Every call keeps the log legal and its replay equal to the records. |
| `FactoryContract.Factory.NextId` | contracts/factory/src/lib.rs:56-60 | Hands out the counter and bumps it; fails exactly on overflow. |
| `FactoryContract.Factory.AppendToIndex` | contracts/factory/src/lib.rs:73-81 | Appends one id to one index and leaves the others alone. |
| `FactoryContract.Factory.CreateEscrow` | contracts/factory/src/lib.rs:123-156 | Every branch of `create_escrow`, built from the storage helpers, with the whole new state. |
| `FactoryContract.Factory.SubmitWork` | contracts/factory/src/lib.rs:159-168 | Every branch of `submit_work`. |
| `FactoryContract.Factory.Approve` | contracts/factory/src/lib.rs:171-185 | Every branch of `approve`. |
| `FactoryContract.Factory.Cancel` | contracts/factory/src/lib.rs:188-202 | Every branch of `cancel`. |
| `RateLimiter.AdmitsAtMost` | contracts/escrow/src/storage.rs:169-196 | Duration D >= 1, no call in the last representable second: any interval of length L >= 1 admits at most max * (floor((L+D-2)/D) + 1) calls of one payer; so at most 2*max in D, at most max in an instant. |
| `RateLimiter.RejectsOnlyWhenJustified` | contracts/escrow/src/storage.rs:169-196 | A rejected call at T implies max admitted calls of that payer in (T-D, T]: it never rejects where an exact sliding window of the same size would admit. Holds with saturation too. |
| `RateLimiter.UnlimitedAtTheEdges` | contracts/escrow/src/storage.rs:169-196 | Why the bound excludes D = 0 and the last representable second: there every call is admitted. |
| `RateLimiter.PayersAreIsolated` | contracts/escrow/src/storage.rs:154-196 | The outcome of a call is the same with all other payers' calls removed from the history. |
| `RateLimiter.Limiter.CheckAndUpdate` | contracts/escrow/src/storage.rs:169-196 | The in-place check has exactly the specified new stats and answer; a rejected call stores nothing. |
| `RateLimiter.WindowsTrack` | contracts/escrow/src/storage.rs:169-196 | The stored stats always mirror the last of a series of windows, each with 1 to max admissions inside it. |
| `Allowlist.AllowlistRefinesSet` | contracts/escrow/src/storage.rs:199-239 | From empty, any sequence of adds and removes keeps the list duplicate-free and equal to the abstract set, and the next edit answers true if and only if the set changes. |
| `Allowlist.ListIsInOrder` | contracts/escrow/src/storage.rs:212-239 | After any sequence of edits the list is in the order in which its tokens were last put on it. |
| `Allowlist.AddThenRemoveRestores` | contracts/escrow/src/storage.rs:212-239 | Adding an absent token and then removing it restores the list, order included. |
| `Allowlist.Storage.AddToAllowlist` | contracts/escrow/src/storage.rs:212-221 | Pushes an absent token; otherwise stores nothing and says false. |
| `Allowlist.Storage.RemoveFromAllowlist` | contracts/escrow/src/storage.rs:224-239 | The rebuilding loop keeps the other tokens in order; stores nothing if none was removed. |
| `EnvFile.UpsertEnvVar` | clients/cli/src/main.rs:335-354 | The flag-and-buffer code computes the specified text. |
| `EnvFile.UpsertLines` | clients/cli/src/main.rs:335-354 | The exact new lines for every text: the old ones with matches replaced minus one trailing blank, or the old ones of the terminated text plus the new line, less carriage returns at line ends; the result ends in a line feed. |
| `EnvFile.UpsertText` | clients/cli/src/main.rs:335-354 | The exact text for every input: with a match, the replaced lines minus one trailing blank, each ended by a line feed alone; without, the old text untouched, a line feed and the new line. |
| `EnvFile.UpsertIsAnUpdate` | clients/cli/src/main.rs:326-354 | The key then looks up to the new value, first or last match alike, and another key looks up as before if none of its values ends in a carriage return; when the key was present that condition is exact. |
| `EnvFile.UpsertExisting` | clients/cli/src/main.rs:335-351 | Key present, any text: all its values become the new one, other keys keep theirs less trailing carriage returns. |
| `EnvFile.UpsertAbsent` | clients/cli/src/main.rs:351-354 | Key absent, any text: it has exactly the new value afterwards, others as in the terminated text. |
| `EnvFile.UpsertTwice` | clients/cli/src/main.rs:335-354 | A second run with the same arguments changes nothing but one trailing blank line (and stray carriage returns). |
| `EnvFile.LinesOfJoin` | clients/cli/src/main.rs:338-349 | Joining lines, terminating the last and splitting again gives the lines back, each without its trailing carriage return. |

## Left out

- Yield: `yield_protocol` is fixed to none; the external protocol is not part of this model, and `withdraw_funds` is never called.
- EscrowContract.Contract.ReleaseRecurring: the amount released is an arbitrary input of the call, because the record lacks the field the code reads.
- Recurring money: since the record has no `amount` field, `EscrowRecurring` assumes one positive amount that every call sees; the settlement theorems hold up to the first release.
- Ledger.Transfer: balances are unbounded above, so the overflow of a recipient's i128 balance is not modelled, nor are frozen or authorised accounts of the real token.
- Host services: time-to-live extension, serialisation, the content of `require_auth`, budget limits and the u32 bound on vector lengths.
- Events of the escrow contract: they carry no state and nothing reads them; the factory's events are modelled.
- Getters `get_status` and `get_escrow`, and the storage layer's plain reads and writes: they would only add easy members.
- Allowlist and rate limiter entry points: no contract function calls the edits or the limiter; they are modelled as the storage functions they are, and `create` reads the allowlist it is given.
- The rate limiter's `min_amount` and `max_amount`: `check_and_update_rate_limit` does not read them.
- `contracts/reputation` and `contracts/escrow/src/reputation.rs`: two counters and a saturating subtraction.
- The rest of the command-line client: arguments, processes, JSON, the wizard and fee estimates; of the `.env` update, reading and writing the file.
- Contents of description strings, and any Unicode beyond Dafny's characters.
