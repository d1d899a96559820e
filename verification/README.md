# Native Agent stores, recovery and lifecycles: a verified model

This Dafny project models the parts of the repository where state is shared, retried or driven through a
transition table, and proves what holds of them for every input, every run and every schedule.

* **Transactional stores** (`Wrappers`, `Sequences`, `Documents`, `Programs`, `SnapshotTransactions`,
  `StoreEffects`, `StoreInvariants`, `StoreContracts`, `StoreRuns`, `ReceiptNaming`, `NativeStores`). The MongoDB
  contract stores keep tasks, receipts, install grants, connections and approval decisions. They are modelled at
  three levels. `Programs` turns each operation into a program with one program point per awaited read; `Atomic` is
  what an operation does when nothing runs beside it. `SnapshotTransactions` runs any number of operations side by
  side: every attempt reads the database as it was when the attempt began, keeps its writes to itself, and commits
  only if nobody has since committed a write to a document it writes (first committer wins); otherwise the operation
  is tried again. Retrying at any other moment and giving up are also allowed, so write conflicts that the server
  reports early are covered. `NativeStores` has the store classes in the source's imperative form, each method
  proved equal to `Atomic`. The central result is that every schedule is strictly serializable, although snapshot
  isolation alone is not: every document that decides a committing run is also written by it. The invariants of the
  stores and the at-most-once and replay guarantees follow for every schedule.
* **Recovery** (`RecoveryPolicy`): failure classification, retry eligibility, the capped exponential delay with
  jitter over `real`, and the retry loop. **Compensation** (`CompensationPlan`): the order in which completed work
  is taken back.
* **Lifecycles** (`Lifecycle` and its instances `NodeLifecycle`, `RunLifecycle`, `Failover`, `Restore`, `Invocation`):
  a small theory of runs of a transition table (gates that must be passed, regions never left, ranks that fall),
  applied to the real tables. An `Unlisted` state stands for any name the table does not have.
* **Migrations** (`IndexMigration`, `Backfill`), the **database connection** (`DatabaseConnection`), **delegation
  grants** (`DelegationGrant`) and **safe codes** (`SafeCode`): the loops and state machines in the source's form, with
  what they guarantee over repeated, resumed and interleaved use.

## Assumptions

* `boundedSerialize` tells different stored values apart, so comparing serialized values is comparing values.
* Callers keep to the stores' protocol (`StoreInvariants.Allowed`): unconditional `put` and `delete` touch only
  unfinished tasks and unredeemed grants, compare-and-set expects an unfinished document or none, and no terminal
  state is listed in `expectedTaskStates`. The serializability results need none of this; the invariant, at-most-once
  and replay results do.
* The database gives every index a name and keeps a declared one (`IndexMigration.NamesAreKept`). How it lists the
  other options is arbitrary.
* Clocks, random draws, outcomes of attempts and the driver's behaviour are parameters or arbitrary events.

## Where the code does something else than one may expect

* A stored receipt can be named by an unfinished task besides the task it belongs to, in two ways: nothing checks what
  `put` and compare-and-set store (`UnfinishedTaskMayNameAReceipt`), and a terminal commit does not look whether another
  task already names its receipt (`ReceiptMayBeNamedBefore`). `NamedOnceExactly` says exactly when it happens. Among
  terminal tasks receipts are never shared.
* A connection's workspace can differ from its grant's: a grant without a workspace redeemed with a connection that
  names one keeps the connection's (`WorkspaceCanDisagree`; `WorkspaceAgreement` says exactly when).
* The failover table lets a paused failover go straight to freezing, draining or fencing, so approval and
  verification can be skipped (`PauseBypassesApproval`, with the exact conditions beside it).
* The invocation table lets recovery run an invocation that was never authorized (`RecoveryBypassesAuthorization`),
  and an invocation reported as `failed` under its older name can still come to complete, exactly when it needs
  recovery (`LegacyFailedIsFinal`).
* Four of the eight node states listed as terminal can be left (`ListedTerminalIsFinal`), and a node that succeeded
  can come to run again after intervention, with or without compensation (`CanStillRun`).
* The backfill looks only at `status` and `lifecycleRevision`; a default for another field overwrites a value that is
  present (`PresentValuesKept`). The defaults the migration passes are all among the two.
* The delay before a retry can be below the base delay, and below the cap after reaching it, when these are not whole
  numbers and are rounded down (`AtLeastBase`, `BelowBase`, `CapIsKept`, `BelowCap`). A policy that passes
  `validateBackoff` has whole-number delays, so neither happens to it (`ValidatedDelays`).
* The index reconciliation is not repeatable when a later declaration takes the name of an earlier one, when an
  unnamed declaration is created, or when the database lists an index with other options than declared, as it does
  with a collation (`SecondRunRepeats`; `NameTakenTwice`, `UnnamedOnce` and `CollationOnce` are the inputs).
* A dependency on a node that the definition does not have is refused as a cycle (`UnknownDependencyHasNoCycle`).
* A safe code cut off at 128 characters can end in an underscore, which a second application removes
  (`OnceIsNotEnough`, `TwiceIsFixed`).
* With a limit that is not positive a delegation grant refuses every reservation and yet stays `active`
  (`EverySequenceIsValid`).

## Model

| member | source | states |
|---|---|---|
| `SnapshotTransactions.EveryScheduleIsStrictlySerial` | backend/scripts/verifyPhase15c1aR1MongoStoreContract.js:45-81 | Under any interleaving of any operations, with conflicts, retries, abandoned attempts and injected failures, the stores equal the committed operations run one at a time in commit order; every commit has the outcome and writes its operation has alone on that state; every answer is the one the operation gives alone at an instant between its call and its return; and each commit answers exactly one call |
| `SnapshotTransactions.CommitTakesEffectNow` | backend/scripts/verifyPhase15c1aR1MongoStoreContract.js:70-81 | An attempt computed on an old snapshot that meets no conflict commits exactly what the operation would do on the current state |
| `SnapshotTransactions.UntouchedSince` | backend/scripts/verifyPhase15c1aR1MongoStoreContract.js:45-49 | A document no commit has written since a snapshot still reads as it did in the snapshot |
| `SnapshotTransactions.EffectsKeepRealTimeOrder` | backend/scripts/verifyPhase15c1aR1MongoStoreContract.js:70-81 | A call made after another one was answered takes effect no earlier than it, and later if the first one wrote |
| `SnapshotTransactions.EveryCallOnce` | backend/scripts/verifyPhase15c1aR1MongoStoreContract.js:70-81 | However often it is retried, a call is answered at most once and takes effect at most once: answers belong to different calls, a call still being tried has had none, and each commit is the effect of exactly one answered call |
| `SnapshotTransactions.InjectionStrikesOnce` | backend/scripts/verifyPhase15c1aR1MongoStoreContract.js:250-253 | A terminal commit that comes between its writes while the failure switch is set fails there and clears it; one that finds it cleared goes on to write the task |
| `Programs.DecidingReadsAreWritten` | backend/scripts/verifyPhase15c1aR1MongoStoreContract.js:124-368 | In a run of any operation that commits writes, every snapshot document it looked at is among those it writes: the reason first-committer-wins suffices |
| `Programs.RunAgrees` | backend/scripts/verifyPhase15c1aR1MongoStoreContract.js:70-81 | An operation's whole run depends on the database only through the documents it looks at |
| `StoreContracts.CommittedExactly` | backend/scripts/verifyPhase15c1aR1MongoStoreContract.js:197-271 | The answer and the stores after every terminal commit, told field by field in the order of the checks: receipt and task are stored both or neither, even when a failure is injected between the two writes |
| `StoreEffects.TerminalEffect` | backend/scripts/verifyPhase15c1aR1MongoStoreContract.js:197-271 | The commit writes exactly when nothing stands in the way, and then both documents |
| `StoreContracts.RedeemedExactly` | backend/scripts/verifyPhase15c1aR1MongoStoreContract.js:289-368 | A redemption goes through exactly when its key is safe and a grant stored under it; the grant is active; both times can be read and the expiry is later than now; organizations are equal, and workspaces with null and empty read as absent; keys are approved, each among the allowed ones; and the connection id is safe and free |
| `StoreContracts.RedemptionErrors` | backend/scripts/verifyPhase15c1aR1MongoStoreContract.js:289-334 | Which error each failing check gives when those before it pass |
| `StoreContracts.RedemptionStores` | backend/scripts/verifyPhase15c1aR1MongoStoreContract.js:335-366 | What a redemption stores and answers, field by field: the new connection with the approved keys, each once in the order given, and the remaining allowed keys in theirs; the grant, redeemed at that time for that connection and otherwise as it was; and nothing else in the stores changes |
| `StoreContracts.EveryRedemptionExactly` | backend/scripts/verifyPhase15c1aR1MongoStoreContract.js:289-368 | In every concurrent schedule, a caller is told that a grant is redeemed exactly when all this holds of the stores at the instant the call took effect |
| `StoreContracts.HandedOutExactly` | backend/scripts/verifyPhase15c1aR1MongoStoreContract.js:155-182 | A decision is handed out, as it was before, exactly when the key is safe and the stored decision is unused, approved, equal to the criteria in invocation, action, digest and organization, expires after now, and has the workspace of the criteria, or none when they name none; it is then used at that time, and nothing else changes |
| `StoreContracts.EveryHandOutExactly` | backend/scripts/verifyPhase15c1aR1MongoStoreContract.js:155-182 | In every concurrent schedule, a decision is handed out exactly when the one stored at the instant of the call fits in all these fields |
| `StoreContracts.TextBeforeExactly` | backend/scripts/verifyPhase15c1aR1MongoStoreContract.js:168 | Time stamps are compared as texts: they agree up to some place, where the first ends or has the smaller character |
| `StoreContracts.KeysExactly` | backend/scripts/verifyPhase15c1aR1MongoStoreContract.js:62-68 | A key is accepted exactly when it has 1 to 1000 characters, none of them NUL |
| `StoreEffects.SingleEffect` | backend/scripts/verifyPhase15c1aR1MongoStoreContract.js:90-153 | The single-document operations act on their document alone: answer and write follow from that document |
| `StoreInvariants.OperationKeepsInvariant` | backend/scripts/verifyPhase15c1aR1MongoStoreContract.js:83-368 | Every allowed operation keeps: redeemed grants and connections in one-to-one correspondence, each connection splitting its grant's allowed keys; every terminal task and its stored receipt naming each other; and leaves every receipt, connection, redeemed grant, terminal task and used decision as it is |
| `StoreInvariants.RedemptionContents` | backend/scripts/verifyPhase15c1aR1MongoStoreContract.js:318-353 | The enabled keys are the approved ones, each once, disjoint from the disabled ones and together with them the grant's allowed keys; organization, connection id and other content are kept; nothing else of the grant changes |
| `StoreInvariants.NewReceipt` | backend/scripts/verifyPhase15c1aR1MongoStoreContract.js:229-249 | In a reachable state a writing terminal commit always stores a new receipt: an equal one already stored belongs to a finished task |
| `StoreInvariants.RedeemedGrantsMatchConnections` | backend/scripts/verifyPhase15c1aR1MongoStoreContract.js:289-366 | Redeemed grants and connections correspond one to one through the connection id, so there are equally many |
| `StoreInvariants.TerminalTasksMatchReceipts` | backend/scripts/verifyPhase15c1aR1MongoStoreContract.js:197-269 | Terminal tasks and receipts correspond one to one: every receipt is named by exactly one terminal task, and there are equally many |
| `StoreInvariants.UnfinishedTaskMayNameAReceipt` | backend/scripts/verifyPhase15c1aR1MongoStoreContract.js:95-101 | A `put` that the protocol allows, after which an unfinished task names the receipt of a finished one |
| `ReceiptNaming.ReceiptMayBeNamedBefore` | backend/scripts/verifyPhase15c1aR1MongoStoreContract.js:197-269 | A terminal commit that stores a receipt which another, unfinished task already names |
| `ReceiptNaming.NamedOnceExactly` | backend/scripts/verifyPhase15c1aR1MongoStoreContract.js:83-368 | Where every stored receipt is named by its own task alone, every allowed operation keeps it so exactly when it is none of three: a put under a valid key, or a swap that takes effect, of a task naming a stored receipt, or a terminal commit that goes through while another task names its receipt |
| `ReceiptNaming.NamedOnceThroughoutExactly` | backend/scripts/verifyPhase15c1aR1MongoStoreContract.js:83-368 | Over a whole run it holds at every moment exactly when no committed operation was one of these three |
| `ReceiptNaming.EveryScheduleNamesOnce` | backend/scripts/verifyPhase15c1aR1MongoStoreContract.js:83-368 | If puts and swaps store only tasks without a receipt reference, then after every concurrent schedule only finished tasks name receipts and every stored receipt is named by its own task alone |
| `StoreInvariants.WorkspaceAgreement` | backend/scripts/verifyPhase15c1aR1MongoStoreContract.js:335-346 | Grant and connection agree on the workspace exactly when the grant has one or the requested connection has none |
| `StoreInvariants.WorkspaceCanDisagree` | backend/scripts/verifyPhase15c1aR1MongoStoreContract.js:311-346 | A redemption that is accepted and leaves a connection in a workspace its grant does not have |
| `StoreRuns.EveryScheduleKeepsInvariant` | backend/scripts/verifyPhase15c1aR1MongoStoreContract.js:70-368 | The store invariant, and equal counts of redeemed grants and connections and of terminal tasks and receipts, hold after every concurrent schedule |
| `StoreRuns.StoresStartedEmptyKeepInvariant` | backend/scripts/verifyPhase15c1aR1MongoStoreContract.js:70-368 | From empty stores they hold with no further assumption than that callers keep to the protocol |
| `StoreRuns.FinishedDocumentsStay` | backend/scripts/verifyPhase15c1aR1MongoStoreContract.js:197-368 | A receipt, connection, redeemed grant, terminal task or used decision, once stored, is in every later state unchanged |
| `StoreRuns.FinishedAtMostOnce` | backend/scripts/verifyPhase15c1aR1MongoStoreContract.js:155-368 | However many callers race and retry, no two answers hand out the same decision, redeem the same grant or finish the same task |
| `StoreRuns.HandedOnlyWhenConsumable` | backend/scripts/verifyPhase15c1aR1MongoStoreContract.js:155-182 | In every schedule, the decision handed out is the one that stood in the stores at the instant the call took effect, fits the criteria in every field, and the call wrote its use |
| `StoreRuns.CommittedTerminalReplays` | backend/scripts/verifyPhase15c1aR1MongoStoreContract.js:213-228 | Repeating a committed terminal commit at any later state changes nothing and answers with the very task and receipt of the first call, which the stores still hold |
| `StoreRuns.RetriedTerminalIsReplayed` | backend/scripts/verifyPhase15c1aR1MongoStoreContract.js:197-271 | In every concurrent schedule, the same terminal commit asked again after it was answered as committed is answered with the same task and receipt, as idempotent, without writing |
| `StoreRuns.LatecomersAreTurnedAway` | backend/scripts/verifyPhase15c1aR1MongoStoreContract.js:155-368 | In every concurrent schedule, whoever asks for a decision or grant after somebody was told to have got it is answered with nothing, or that it is already redeemed, and writes nothing |
| `StoreRuns.CommitsInReplyOrder` | backend/scripts/verifyPhase15c1aR1MongoStoreContract.js:70-81 | Two writing answers belong to two different commits, in the order of the answers |
| `StoreRuns.DecisionsStay` | backend/scripts/verifyPhase15c1aR1MongoStoreContract.js:148-182 | From any point of the committed history to any later one a stored decision stays stored, and nothing of it but its use changes |
| `StoreRuns.ExpiryIsFinal` | backend/scripts/verifyPhase15c1aR1MongoStoreContract.js:155-182 | In every concurrent schedule, a decision that is stored at some moment and expired at some time is not handed out by any call made later whose clock shows that time or a later one, whatever is committed in between |
| `NativeStores.MongoProtocolCollectionStore.CompareAndSet` | backend/scripts/verifyPhase15c1aR1MongoStoreContract.js:124-144 | Swaps exactly when the stored document equals the expected one (or both are missing), and changes only that document; equals the atomic operation |
| `NativeStores.MongoProtocolCollectionStore.GetValue` | backend/scripts/verifyPhase15c1aR1MongoStoreContract.js:90-93 | Answers with the document stored under a valid key, or that there is none |
| `NativeStores.MongoProtocolCollectionStore.PutValue` | backend/scripts/verifyPhase15c1aR1MongoStoreContract.js:95-101 | Stores the document under a valid key, whatever was there, and nothing else; an invalid key is an error and changes nothing |
| `NativeStores.MongoProtocolCollectionStore.DeleteValue` | backend/scripts/verifyPhase15c1aR1MongoStoreContract.js:103-106 | Removes the document under a valid key, and nothing else, and tells whether there was one |
| `NativeStores.MongoApprovalDecisionStore.PutDecision` | backend/scripts/verifyPhase15c1aR1MongoStoreContract.js:148-153 | Stores a decision exactly when its identifier is valid and free |
| `NativeStores.MongoApprovalDecisionStore.ConsumeApprovedDecision` | backend/scripts/verifyPhase15c1aR1MongoStoreContract.js:155-182 | The find-and-update hands out the stored decision exactly when it fits in every field, marks it used at that time, and changes nothing otherwise; it equals the atomic operation |
| `NativeStores.MongoTerminalTransactionStore.CommitTerminal` | backend/scripts/verifyPhase15c1aR1MongoStoreContract.js:197-271 | The step-by-step transaction with its pending writes equals the atomic operation, and clears the failure switch exactly when it got between the two writes |
| `NativeStores.MongoInstallGrantTransactionStore.RedeemInstallGrant` | backend/scripts/verifyPhase15c1aR1MongoStoreContract.js:289-368 | The step-by-step transaction redeems exactly when everything demanded is there, stores just the grant and the connection of its answer, and otherwise throws and changes nothing; it equals the atomic operation |
| `RecoveryPolicy.ClassificationOrder` | backend/src/constants/orchestrationRecovery.js:209-238 | A known category hint overrules everything; without one ambiguity overrules the code and is never retried automatically; of the matching code patterns none comes before the one that decides; otherwise the failure is the unknown safe one |
| `RecoveryPolicy.AutomaticExactly` | backend/src/constants/orchestrationRecovery.js:26-66 | Exactly six of the categories may be retried automatically |
| `RecoveryPolicy.AnyBarDecides` | backend/src/constants/orchestrationRecovery.js:218-237 | Without a hint, one matching pattern that forbids automatic retry decides, however many others match |
| `RecoveryPolicy.EligibleExactly` | backend/src/constants/orchestrationRecovery.js:240-252 | A retry is allowed exactly when the given category, or else the failure's, is neither barred nor excluded by the policy's two lists, repeating is safe and in time, and whole numbers of attempts are left under the request's maximum or else the policy's |
| `RecoveryPolicy.EffectiveExactly` | backend/src/constants/orchestrationRecovery.js:255-259 | What is used for missing numbers, and how numbers out of range are bounded |
| `RecoveryPolicy.ExponentialExactly` | backend/src/constants/orchestrationRecovery.js:258 | The first delay starts from the base, and each later one from the one before times the multiplier, up to the cap |
| `RecoveryPolicy.JitterExactly` | backend/src/constants/orchestrationRecovery.js:259-261 | The spread above the exponential is the jitter ratio's share of it as far as the draw goes, none for a draw of zero or less and all for one or more |
| `RecoveryPolicy.RoundExactly` | backend/src/constants/orchestrationRecovery.js:261 | Delays are rounded to the nearest whole number, a half upwards |
| `RecoveryPolicy.DelayBounds` | backend/src/constants/orchestrationRecovery.js:254-262 | For every attempt and draw the delay lies between the rounded base and the cap, and between the rounded exponential and half above it |
| `RecoveryPolicy.AtLeastBase` | backend/src/constants/orchestrationRecovery.js:255-261 | The delay is never below the effective base delay, for all attempts and draws, exactly when rounding does not take the base down (so for whole numbers) |
| `RecoveryPolicy.BelowBase` | backend/src/constants/orchestrationRecovery.js:255-261 | A base delay of 1.25 ms gives a delay of 1 ms |
| `RecoveryPolicy.DelayIsMonotone` | backend/src/constants/orchestrationRecovery.js:258-261 | For all attempt numbers and draws, a later attempt or a larger draw never gives a shorter delay |
| `RecoveryPolicy.CapIsKept` | backend/src/constants/orchestrationRecovery.js:256-261 | Once the exponential has reached the cap, at any attempt number, every later delay is the cap, exactly when rounding keeps the cap |
| `RecoveryPolicy.BelowCap` | backend/src/constants/orchestrationRecovery.js:256-261 | A cap of 1.25 ms that the second attempt reaches and that gives a delay of 1 ms |
| `RecoveryPolicy.ValidatedDelays` | backend/src/services/orchestrationRecoveryValidation.service.js:400-418 | For every policy that passes validation the given numbers are used as they are, every delay lies between base and maximum, and is the maximum from the attempt on at which the exponential reaches it |
| `RecoveryPolicy.CapIsReached` | backend/src/constants/orchestrationRecovery.js:257-258 | With an effective multiplier above one, some attempt reaches the cap |
| `RecoveryPolicy.RetriedExactly` | backend/src/constants/orchestrationRecovery.js:240-252 | A failed attempt is retried exactly when it is safe to repeat, in time, of a category neither fixed rules nor the policy exclude, and fewer attempts were made than a whole positive maximum allows |
| `RecoveryPolicy.RetryUntilSettled` | backend/src/services/orchestrationRecovery.service.js:2511-2550 | For every sequence of failures and draws the retry loop ends, after at most the maximum number of retries: every failure before was repeatable, and it ends at a success, a failure that is not, or the used-up maximum; the total wait lies between the number of retries times the rounded base and times the cap; a failure of unknown outcome is retried only on the word of a category hint |
| `CompensationPlan.CompensationSteps` | backend/src/services/orchestrationRecoveryValidation.service.js:776-848 | A plan compensates every candidate exactly once, after everything that depends on it and after every other candidate it names itself; among those free in the same round the comparison decides. It is refused exactly when the definition has a cycle or an unknown dependency, there are too many candidates, or there is a cycle among candidates of such requirements |
| `CompensationPlan.OrderKeys` | backend/src/services/orchestrationRecoveryValidation.service.js:833-847 | The rounds end with all keys, each once, by longest chain of requirements and within a round by comparison, or with nothing exactly when the requirements have a cycle or name a missing key |
| `CompensationPlan.TopologicalRanks` | backend/src/services/orchestrationRecoveryValidation.service.js:744-765 | Every node gets the length of the longest chain of dependencies below it; there are no ranks exactly when the graph has a cycle or an unknown dependency |
| `CompensationPlan.NothingReady` | backend/src/services/orchestrationRecoveryValidation.service.js:753-755 | When no key is ready and some are left, there really is a cycle or a missing key |
| `CompensationPlan.DescendantsFor` | backend/src/services/orchestrationRecoveryValidation.service.js:767-773 | The depth-first search finds only nodes that can be reached, and with every newly found one all it leads to |
| `CompensationPlan.DescendantsDepend` | backend/src/services/orchestrationRecoveryValidation.service.js:767-818 | Started from nothing it finds exactly the nodes that depend on the given one, directly or not |
| `CompensationPlan.NothingDeclaredNothingRefused` | backend/src/services/orchestrationRecoveryValidation.service.js:816-842 | For a definition without cycles, only candidates that name other candidates can make the plan impossible |
| `CompensationPlan.NamingOneselfIsIgnored` | backend/src/services/orchestrationRecoveryValidation.service.js:819-822 | A candidate that names only itself is not refused for it |
| `CompensationPlan.ContradictionsAreRefused` | backend/src/services/orchestrationRecoveryValidation.service.js:816-842 | Two candidates that name each other, or one that names another which it depends on, are refused |
| `CompensationPlan.UnknownDependencyHasNoCycle` | backend/src/services/orchestrationRecoveryValidation.service.js:753-755 | A graph without a cycle that is refused as cyclic, for a dependency on a node it does not have |
| `Lifecycle.MustPass` | backend/src/constants/orchestration.js:172-181 | In any table, a run that leaves a region whose only exit is a gate has visited the gate |
| `Lifecycle.RankFalls` | backend/src/constants/orchestration.js:172-181 | In any table, a falling rank on a closed region bounds the number of steps of every run inside it |
| `Lifecycle.NeverLeftWhenNoExit` | backend/src/constants/orchestration.js:172-181 | In any table, no run ever leaves a state exactly when the table leads nowhere else from it |
| `Lifecycle.DetourDecides` | backend/src/constants/orchestration.js:172-181 | Where a phase is entered only from a gate or by a detour, a run enters it only after the gate exactly when it does not take the detour too early |
| `NodeLifecycle.SettledNodeNeedsIntervention` | backend/src/constants/orchestration.js:90-122 | A node that has succeeded, is being cancelled, or is compensated or ended, leaves these states (to run, retry or be queued) only after waiting for an operator |
| `NodeLifecycle.ListedTerminalIsFinal` | backend/src/constants/orchestration.js:54-122 | Of the node states listed as terminal exactly four are really never left |
| `NodeLifecycle.CanStillRun` | backend/src/constants/orchestration.js:90-122 | A node can still come to run from every state except the four without an exit |
| `RunLifecycle.WindingDownNeedsIntervention` | backend/src/constants/orchestration.js:124-170 | A run that is being cancelled, compensated or ended runs, recovers or succeeds again only after waiting for an operator |
| `RunLifecycle.TerminalRunIsFinal` | backend/src/constants/orchestration.js:46-170 | The run states no run ever leaves are exactly those listed as terminal |
| `RunLifecycle.CanStillSucceed` | backend/src/constants/orchestration.js:124-170 | A run can still succeed exactly until it has ended otherwise or its termination was requested |
| `Failover.LateStaysLate` | backend/src/constants/regionalResilience.js:64-81 | From the transfer of authority on no earlier phase recurs and at most six steps are left |
| `Failover.TransferredAtMostOnce` | backend/src/constants/regionalResilience.js:64-81 | No run transfers authority twice |
| `Failover.TransferFollowsFencing` | backend/src/constants/regionalResilience.js:64-81 | In every run, however it ends, authority is transferred directly after fencing the source |
| `Failover.SuccessTransferredOnce` | backend/src/constants/regionalResilience.js:64-81 | A failover that succeeds has transferred authority exactly once, directly after fencing the source |
| `Failover.CommittedOnlyAfterApproval` | backend/src/constants/regionalResilience.js:64-81 | Nothing is frozen, drained, fenced or transferred before approval exactly when no pause is left into such a phase before approval |
| `Failover.FencedOnlyAfterVerification` | backend/src/constants/regionalResilience.js:64-81 | The source is fenced only after its replication was verified, with exactly the same exception |
| `Failover.PauseBypassesApproval` | backend/src/constants/regionalResilience.js:78 | A run of the table that transfers authority without approval and without verification |
| `Restore.RestoreEnds` | backend/src/constants/regionalResilience.js:104-116 | Every restore ends after at most eleven steps |
| `Restore.ElevenStepsHappen` | backend/src/constants/regionalResilience.js:104-116 | Eleven is the least bound |
| `Restore.CameThisWay` | backend/src/constants/regionalResilience.js:104-116 | A restore at a step of the validated way has just gone through all steps before it, in order |
| `Restore.PromotedWasValidated` | backend/src/constants/regionalResilience.js:104-116 | A promoted restore was approved, provisioned, restored and validated for schema, indexes and integrity, in this order without interruption, and was ready right before |
| `Invocation.TerminalIsFinal` | backend/src/constants/invocationLifecycle.js:16-63 | The invocation states no run ever leaves are exactly the terminal ones |
| `Invocation.RunningFollowsAuthorization` | backend/src/constants/invocationLifecycle.js:18-63 | In every run `running` is entered only from `authorized` or `recovery_required` |
| `Invocation.SuccessCameFromRuntime` | backend/src/constants/invocationLifecycle.js:18-63 | A run that succeeds ends there, and was running and waiting for the runtime right before, entered from authorization or recovery |
| `Invocation.ExecutedOnlyAfterAuthorization` | backend/src/constants/invocationLifecycle.js:18-63 | Nothing is executed before authorization exactly when recovery does not resume an unauthorized invocation |
| `Invocation.RecoveryBypassesAuthorization` | backend/src/constants/invocationLifecycle.js:62 | A run of the table that succeeds without ever being authorized |
| `Invocation.LegacyRoundTrip` | backend/src/constants/invocationLifecycle.js:190-210 | A legacy status survives the way to a state and back; a state exactly when it is one of the four a status maps to |
| `Invocation.LegacyNames` | backend/src/constants/invocationLifecycle.js:197-210 | Which states each legacy status stands for |
| `Invocation.LegacyHistory` | backend/src/constants/invocationLifecycle.js:18-210 | Under its legacy statuses an invocation becomes completed only from running and is then over |
| `Invocation.LegacyFailedIsFinal` | backend/src/constants/invocationLifecycle.js:18-210 | A state reported as failed stays so in every run exactly when it is not `recovery_required`, and that one alone can still come to complete |
| `Invocation.RunIsListed` | backend/src/constants/invocationLifecycle.js:18-63 | A run that starts as accepted has a legacy status at every step |
| `IndexMigration.EnsureModelIndexes` | backend/scripts/migrateDataAccessPerformance.js:28-51 | The loop reports and creates exactly what deciding on the declarations one after the other, each on the indexes left by those before, comes to |
| `IndexMigration.RunOnlyAdds` | backend/scripts/migrateDataAccessPerformance.js:28-51 | Between any two moments of a run the listed indexes stay, in place, and each further one was made for a declaration found missing (or is the identifier index) |
| `IndexMigration.DecidedExactly` | backend/scripts/migrateDataAccessPerformance.js:14-47 | What is reported of a declaration, told of the listed indexes and the documents: a mismatch when the first index of its name differs in key or an option; verified when some index agrees in key and all options; duplicates found when it is unique and two documents agree in every field of the key (a missing field agreeing only with a missing one); and created otherwise |
| `IndexMigration.DuplicateFreeExactly` | backend/scripts/migrateDataAccessPerformance.js:18-26 | The preflight passes exactly when any two documents differ in some field of the key |
| `IndexMigration.RunIsSafe` | backend/scripts/migrateDataAccessPerformance.js:18-51 | No index is dropped or altered, and every added one was made for a declaration that was missing and, if unique, of which any two documents differ in some field of the key (or is the identifier index) |
| `IndexMigration.SecondRunRepeats` | backend/scripts/migrateDataAccessPerformance.js:14-51 | A second run reports the first results with created turned into verified, and changes nothing, exactly when every created index was declared with a name, is listed by the database with its declared options, and was not created under the name of an earlier declaration |
| `IndexMigration.DistinctNamesRepeat` | backend/scripts/migrateDataAccessPerformance.js:14-51 | Pairwise distinct declared names, and options the database lists as declared, are enough for that, whatever indexes and documents there are |
| `IndexMigration.UnnamedIsRenamed` | backend/scripts/migrateDataAccessPerformance.js:40-47 | An unnamed declaration is reported without a name when created; the next run reports another name or no success |
| `IndexMigration.UnnamedOnce` | backend/scripts/migrateDataAccessPerformance.js:40-47 | A collection that does not exist and one unnamed declaration for which the second run differs |
| `IndexMigration.CollationOnce` | backend/scripts/migrateDataAccessPerformance.js:35-39 | One declaration with a collation, on a server that lists collations in another form: created, then a mismatch |
| `IndexMigration.ListedDifferently` | backend/scripts/migrateDataAccessPerformance.js:35-39 | An index the database lists with other options than declared is reported as a mismatch from the next run on |
| `IndexMigration.NameTakenTwice` | backend/scripts/migrateDataAccessPerformance.js:35-47 | Two declarations of one name for which the second run does not repeat the first |
| `Backfill.BackfillModel` | backend/scripts/migrateEnterpriseOperations.js:39-74 | After the paged loop every document after the start has each default where the value was missing, null or of a field not selected, its old value where a selected field held one, and all other fields as they were; no other document changes. Each such document is counted once as processed, exactly the changed ones as modified; pages have the batch size (500 if not given, between 1 and 2000) except the last; and every logged checkpoint tells up to where the documents then were filled in |
| `Backfill.ResumeCompletes` | backend/scripts/migrateEnterpriseOperations.js:41-42 | A run that stopped anywhere at or after a logged checkpoint, finished by a run from that checkpoint, leaves the documents as one full run does |
| `Backfill.SecondRunModifiesNothing` | backend/scripts/migrateEnterpriseOperations.js:52-60 | A second run over filled documents modifies none |
| `Backfill.BackfillTwice` | backend/scripts/migrateEnterpriseOperations.js:39-74 | Two full runs one after the other, with any two batch sizes: the second counts the same documents, modifies none and leaves them as one pass would |
| `Backfill.PresentValuesKept` | backend/scripts/migrateEnterpriseOperations.js:46-56 | Present values are kept in all documents exactly when the defaults are only for the fields the query selects |
| `Backfill.FilledTwice` | backend/scripts/migrateEnterpriseOperations.js:53-60 | Filling in a document a second time changes nothing |
| `DatabaseConnection.EveryRunIsValid` | backend/src/config/db.js:24-160 | Under every interleaving of calls, completions and driver events a connect or disconnect promise is remembered exactly while the one attempt behind it is unfinished, so attempts never overlap; a disconnect counts as intentional exactly meanwhile; only in production can an attempt reject |
| `DatabaseConnection.CallersJoinTheAttempt` | backend/src/config/db.js:102-120 | Until an attempt has settled, whatever else happens, every caller gets its promise and starts nothing |
| `DatabaseConnection.ReportedStatus` | backend/src/config/db.js:162-170 | In every run `connected` and `connecting` are reported exactly when the driver says so, `disconnecting` when the driver is and else only during a disconnect, `not_configured` only without configuration; of a disconnected driver a state that claims more is reported as unavailable |
| `DatabaseConnection.Connection.ConnectDatabase` | backend/src/config/db.js:112-138 | A promise it answers with is the remembered one and belongs to the only attempt; without one there is no configuration, or no attempt and `connected` is reported; a call during an attempt changes nothing |
| `DatabaseConnection.Connection.BeginConnection` | backend/src/config/db.js:102-110 | The attempt it starts is the only one and has a promise never used before |
| `DatabaseConnection.Connection.CompleteConnection` | backend/src/config/db.js:82-100 | After the driver's answer the attempt goes on only if `connected` is reported, and is else unavailable and to be rejected exactly in production; until it settles it stays remembered |
| `DatabaseConnection.Connection.CompletePartner` | backend/src/config/db.js:92-99 | When seeding the development partner ends, the attempt is about to settle, and rejects exactly when it failed in production |
| `DatabaseConnection.Connection.HandleConnectionError` | backend/src/config/db.js:42-47 | An error is reported as unavailable unless the driver is still connected, when it changes nothing |
| `DatabaseConnection.Connection.DisconnectDatabase` | backend/src/config/db.js:140-160 | A promise it answers with belongs to the only disconnect; without one `disconnected` is reported; a call during a disconnect changes nothing |
| `DatabaseConnection.Connection.SettleDisconnect` | backend/src/config/db.js:150-157 | After a disconnect none is under way or intended, and the state is disconnected exactly when the driver is |
| `DatabaseConnection.Connection.HandleDisconnected` | backend/src/config/db.js:28-35 | A lost connection is unavailable unless a disconnect is under way, and disconnected if one is |
| `DatabaseConnection.Connection.SettleAttempt` | backend/src/config/db.js:92-107 | An attempt that settles leaves none remembered or under way; its callers see it fail only in production |
| `DelegationGrant.Grant.Reserve` | backend/scripts/verifyInterAgentDelegation.js:103-104 | Answer and new state of a reservation: replayed, refused or newly numbered |
| `DelegationGrant.EverySequenceIsValid` | backend/scripts/verifyInterAgentDelegation.js:103-110 | After any sequence of calls the keys are numbered 1 to the count one to one, the count never exceeds the limit, and the grant is exhausted exactly when a positive limit is reached |
| `DelegationGrant.ReservedInOrder` | backend/scripts/verifyInterAgentDelegation.js:103-110 | The first different keys to come get the numbers 1, 2, ... in order until the limit is reached, and no other key ever gets one |
| `DelegationGrant.AnswersInOrder` | backend/scripts/verifyInterAgentDelegation.js:104 | After any calls, a numbered key is answered with its number as a replay, a new one with the next number while one is left, and any other is refused |
| `DelegationGrant.AnswersStand` | backend/scripts/verifyInterAgentDelegation.js:104-110 | Through any later calls a key is answered with the number it was first told, a refused key stays refused, and asking again changes nothing |
| `SafeCode.RunCollapses` | backend/src/constants/orchestrationObservability.js:193 | A run of other characters of any length becomes one underscore |
| `SafeCode.PartsCollapse` | backend/src/constants/orchestrationObservability.js:193 | A text not cut inside such a run is collapsed part by part |
| `SafeCode.NormalizedIsCode` | backend/src/constants/orchestrationObservability.js:190-195 | The normalized text has only code characters, at most 128, no leading underscore, and a trailing one only when cut off |
| `SafeCode.FallbackExactly` | backend/src/constants/orchestrationObservability.js:189-198 | The fallback is used exactly when the normalized text is empty or starts with a digit; with a matching fallback every answer matches the pattern |
| `SafeCode.AnswerExactly` | backend/src/constants/orchestrationObservability.js:189-198 | The answer is the upper-cased and collapsed text, trimmed of just its outer underscores and cut off at 128 characters, or the fallback when nothing is left or a digit comes first |
| `SafeCode.CodeCharacters` | backend/src/constants/orchestrationObservability.js:193 | The characters kept are the capital letters A to Z, the digits and the underscore |
| `SafeCode.IdempotentExactly` | backend/src/constants/orchestrationObservability.js:189-198 | A second application leaves the answer as it is exactly when the collapsed and trimmed text is not cut off behind an underscore at 128 characters or, where the fallback is answered, the fallback does not end in one |
| `SafeCode.ShortAnswersAreFixed` | backend/src/constants/orchestrationObservability.js:189-198 | Answers shorter than 128 are fixed points, given a fallback without trailing underscore |
| `SafeCode.TwiceIsFixed` | backend/src/constants/orchestrationObservability.js:189-198 | Two applications always reach a fixed point |
| `SafeCode.OnceIsNotEnough` | backend/src/constants/orchestrationObservability.js:194-195 | A text for which one application does not |

## Left out

- Database internals: sessions, timeouts, elections and unknown commit results; that an update to an identical
  document may be skipped by the server; duplicate-key errors raised inside a transaction other than as a conflict.
- `boundedSerialize`: its limits on size and shape and the errors they raise; it is taken as comparing values.
- `get`, `put`, `delete`, `putDecision` and `consumeApprovedDecision` are single statements in the source; in the
  concurrent model they are snapshot transactions on one document, which can only add conflicts and retries.
- The stores' `has`, `values` and `scan`, `recoverTerminalWrites`, the other collections, and documents of one kind
  stored in the collection of another.
- NativeStores.Session: models a transaction that runs alone; interleaving is in `SnapshotTransactions`, where
  operations are programs on values instead of method bodies.
- Fields of documents that no operation looks at are one opaque text.
- The regular expressions of `classifyRecoveryFailure` and the making of a code from an error: which patterns match is
  an input; the order of hint, ambiguity and patterns is modelled.
- Non-finite numbers and fractional attempt numbers in `recoveryBackoff`, and the rounding error of floating point.
- RecoveryPolicy.RetryUntilSettled: models the retry strategy of the directive, with an attempt counter kept by the
  caller; the compensation and intervention strategies and the persistence between attempts are not modelled.
- CompensationPlan.CompensationSteps: which node runs are candidates, and the comparison of completion time, topology
  and key, are inputs (any order of keys will do); an invalid ordering name and the contents of a step are not modelled.
- `assertTransition` raises an error with the two states; the error text and code are not modelled. Transition tables
  beyond the five here would be further instances of the same theory.
- IndexMigration.SecondRunRepeats: does not cover a declaration named like the identifier index, or an index the
  server itself refuses to create; documents are taken as unchanged and nobody else creates indexes meanwhile.
- Backfill.BackfillModel: takes no other writer during the run; identifiers are ordered numbers, and a starting
  identifier that is not valid counts as none.
- The manifest indexes of `reconcileGovernedIndex`, whose source is not part of this model.
- DatabaseConnection: `handleConnected` and `handleReconnected`, which only assign one state, are events of the machine
  without a method; connection options, pool instrumentation, logging and environment parsing.
- The trimming and upper-casing of `SafeCode` are a parameter, of which only is used that it leaves texts of code
  characters alone.
- `boundedInteger`, `basisPoints`, `compensationIdempotencyKey`, limits and registries: single-branch or data only.
