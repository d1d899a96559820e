/** Regional failovers. */
module Failover {
  import opened Lifecycle

  datatype FailoverState =
    | Requested | Validating | ApprovalRequired | Approved | FreezingAdmission | DrainingSource | VerifyingReplication
    | FencingSource | TransferringAuthority | TransferringQueues | ActivatingTarget | RebuildingProjections
    | ValidatingTarget | Succeeded | Partial | Failed | Paused | Cancelled | RollbackRequired | Unlisted(name: string)

  function Next(s: FailoverState): set<FailoverState> {
    match s
    case Requested => {Validating, Cancelled, Failed}
    case Validating => {ApprovalRequired, Approved, Failed, Paused}
    case ApprovalRequired => {Approved, Cancelled, Failed}
    case Approved => {FreezingAdmission, Cancelled, Paused, Failed}
    case FreezingAdmission => {DrainingSource, VerifyingReplication, Paused, Failed}
    case DrainingSource => {VerifyingReplication, Paused, Failed}
    case VerifyingReplication => {FencingSource, ApprovalRequired, Paused, Failed}
    case FencingSource => {TransferringAuthority, Paused, Failed, RollbackRequired}
    case TransferringAuthority => {TransferringQueues, Partial, Failed, RollbackRequired}
    case TransferringQueues => {ActivatingTarget, Partial, Failed, RollbackRequired}
    case ActivatingTarget => {RebuildingProjections, ValidatingTarget, Partial, Failed}
    case RebuildingProjections => {ValidatingTarget, Partial, Failed}
    case ValidatingTarget => {Succeeded, Partial, Failed}
    case Paused => {Validating, Approved, FreezingAdmission, DrainingSource, VerifyingReplication, FencingSource,
                    Cancelled, Failed}
    case Partial => {RollbackRequired}
    case Succeeded => {}
    case Failed => {}
    case Cancelled => {}
    case RollbackRequired => {}
    case Unlisted(_) => {}
  }

  /** From the transfer of authority on. */
  const LATE: set<FailoverState> :=
    {TransferringAuthority, TransferringQueues, ActivatingTarget, RebuildingProjections, ValidatingTarget, Succeeded,
     Partial, Failed, RollbackRequired}

  function StepsLeft(s: FailoverState): nat {
    match s
    case TransferringAuthority => 6
    case TransferringQueues => 5
    case ActivatingTarget => 4
    case RebuildingProjections => 3
    case ValidatingTarget => 2
    case Partial => 1
    case _ => 0
  }

  lemma LateStep(s: FailoverState, t: FailoverState)
    requires s in LATE && t in Next(s)
    ensures t in LATE && StepsLeft(t) < StepsLeft(s)
  {
  }

  lemma LateDescends()
    ensures forall s, t :: s in LATE && t in Next(s) ==> t in LATE
    ensures Descends(Next, LATE, StepsLeft)
  {
    hide Next, StepsLeft, LATE;
    forall s, t | s in LATE && t in Next(s)
      ensures t in LATE && StepsLeft(t) < StepsLeft(s)
    {
      LateStep(s, t);
    }
  }

  /** After authority starts to move, no earlier phase recurs, and at most six steps are left. */
  lemma LateStaysLate(run: seq<FailoverState>, i: nat, j: nat)
    requires Run(Next, run) && i <= j < |run| && run[i] in LATE
    ensures run[j] in LATE && StepsLeft(run[j]) + (j - i) <= StepsLeft(run[i]) <= 6
  {
    LateDescends();
    hide Next;
    RankFalls(Next, LATE, StepsLeft, run, i, j);
  }

  /** Authority is transferred at most once in any run. */
  lemma TransferredAtMostOnce(run: seq<FailoverState>, i: nat, j: nat)
    requires Run(Next, run) && i <= j < |run| && run[i] == TransferringAuthority && run[j] == TransferringAuthority
    ensures i == j
  {
    LateStaysLate(run, i, j);
  }

  /** In every run, however it ends, authority is transferred straight after fencing the source. */
  lemma TransferFollowsFencing(run: seq<FailoverState>, k: nat)
    requires Run(Next, run) && 0 < k < |run| && run[k] == TransferringAuthority
    ensures run[k - 1] == FencingSource
  {
    assert EnteredOnlyFrom(Next, TransferringAuthority, {FencingSource});
    EnteredFrom(Next, TransferringAuthority, {FencingSource}, run, k);
  }

  /** Everything before the transfer of authority, and the ends that can be reached without it. */
  const WITHOUT_TRANSFER: set<FailoverState> :=
    {Requested, Validating, ApprovalRequired, Approved, FreezingAdmission, DrainingSource, VerifyingReplication,
     FencingSource, Paused, Cancelled, Failed, RollbackRequired}

  ghost predicate OnlyTransfer(run: seq<FailoverState>, k: nat) {
    k < |run| && run[k] == TransferringAuthority
    && forall j :: 0 <= j < |run| && run[j] == TransferringAuthority ==> j == k
  }

  /** A failover that succeeds has transferred authority exactly once, straight after fencing the source. */
  lemma SuccessTransferredOnce(run: seq<FailoverState>) returns (k: nat)
    requires Run(Next, run) && run[0] == Requested && run[|run| - 1] == Succeeded
    ensures OnlyTransfer(run, k) && 0 < k && run[k - 1] == FencingSource
    ensures |run| - 1 - k <= 6
  {
    assert LeavesOnlyThrough(Next, WITHOUT_TRANSFER, TransferringAuthority);
    hide Next;
    MustPass(Next, WITHOUT_TRANSFER, TransferringAuthority, run, 0, |run| - 1);
    k :| 1 <= k < |run| && run[k] == TransferringAuthority;
    TransferFollowsFencing(run, k);
    forall j: nat | j < |run| && run[j] == TransferringAuthority
      ensures j == k
    {
      if j <= k { TransferredAtMostOnce(run, j, k); } else { TransferredAtMostOnce(run, k, j); }
    }
    LateStaysLate(run, k, |run| - 1);
  }

  // ---------- Approval and verification ----------

  /** From the replication being checked on. */
  const FENCED: set<FailoverState> :=
    {FencingSource, TransferringAuthority, TransferringQueues, ActivatingTarget, RebuildingProjections,
     ValidatingTarget, Succeeded, Partial, RollbackRequired}

  /** From the first step that touches the regions on. */
  const COMMITTED: set<FailoverState> := FENCED + {FreezingAdmission, DrainingSource, VerifyingReplication}

  /**
   * Nothing is frozen, drained, fenced or transferred before approval exactly when no pause is left into such a
   * phase before approval.
   */
  lemma CommittedOnlyAfterApproval(run: seq<FailoverState>)
    requires Run(Next, run) && run[0] == Requested
    ensures OnlyAfter(run, COMMITTED, Approved) <==> DetourOnlyAfter(run, Paused, COMMITTED, Approved)
  {
    DetourDecides(Next, COMMITTED, Approved, Paused, run);
  }

  /** The source is fenced only after its replication was verified, with the same exception. */
  lemma FencedOnlyAfterVerification(run: seq<FailoverState>)
    requires Run(Next, run) && run[0] == Requested
    ensures OnlyAfter(run, FENCED, VerifyingReplication) <==> DetourOnlyAfter(run, Paused, FENCED, VerifyingReplication)
  {
    DetourDecides(Next, FENCED, VerifyingReplication, Paused, run);
  }

  /** The table lets a pause be left straight into fencing, without approval and without verification. */
  lemma PauseBypassesApproval() returns (run: seq<FailoverState>)
    ensures Run(Next, run) && run[0] == Requested && run[|run| - 1] == TransferringAuthority
    ensures !Visits(run, Approved, 0, |run|) && !Visits(run, VerifyingReplication, 0, |run|)
  {
    run := [Requested, Validating, Paused, FencingSource, TransferringAuthority];
  }
}
