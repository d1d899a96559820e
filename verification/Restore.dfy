/** Restores from backup. */
module Restore {
  import opened Lifecycle

  datatype RestoreState =
    | Requested | ApprovalRequired | Approved | ProvisioningTarget | Restoring | ValidatingSchema | ValidatingIndexes
    | ValidatingIntegrity | RebuildingProjections | ReadyForPromotion | Promoted | Failed | Cancelled | CleanedUp
    | Unlisted(name: string)

  function Next(s: RestoreState): set<RestoreState> {
    match s
    case Requested => {ApprovalRequired, Approved, Cancelled, Failed}
    case ApprovalRequired => {Approved, Cancelled, Failed}
    case Approved => {ProvisioningTarget, Cancelled, Failed}
    case ProvisioningTarget => {Restoring, Cancelled, Failed}
    case Restoring => {ValidatingSchema, Failed, Cancelled}
    case ValidatingSchema => {ValidatingIndexes, Failed}
    case ValidatingIndexes => {ValidatingIntegrity, Failed}
    case ValidatingIntegrity => {RebuildingProjections, ReadyForPromotion, Failed}
    case RebuildingProjections => {ReadyForPromotion, Failed}
    case ReadyForPromotion => {Promoted, CleanedUp, Failed}
    case Promoted => {}
    case Failed => {CleanedUp}
    case Cancelled => {CleanedUp}
    case CleanedUp => {}
    case Unlisted(_) => {}
  }

  function StepsLeft(s: RestoreState): nat {
    match s
    case Requested => 11
    case ApprovalRequired => 10
    case Approved => 9
    case ProvisioningTarget => 8
    case Restoring => 7
    case ValidatingSchema => 6
    case ValidatingIndexes => 5
    case ValidatingIntegrity => 4
    case RebuildingProjections => 3
    case ReadyForPromotion => 2
    case Failed => 1
    case Cancelled => 1
    case _ => 0
  }

  const LISTED: set<RestoreState> :=
    {Requested, ApprovalRequired, Approved, ProvisioningTarget, Restoring, ValidatingSchema, ValidatingIndexes,
     ValidatingIntegrity, RebuildingProjections, ReadyForPromotion, Promoted, Failed, Cancelled, CleanedUp}

  lemma StepDescends(s: RestoreState, t: RestoreState)
    requires s in LISTED && t in Next(s)
    ensures t in LISTED && StepsLeft(t) < StepsLeft(s)
  {
  }

  lemma StepsDescend()
    ensures forall s, t :: s in LISTED && t in Next(s) ==> t in LISTED
    ensures Descends(Next, LISTED, StepsLeft)
  {
    hide Next, StepsLeft, LISTED;
    forall s, t | s in LISTED && t in Next(s)
      ensures t in LISTED && StepsLeft(t) < StepsLeft(s)
    {
      StepDescends(s, t);
    }
  }

  /** Every restore ends after at most eleven steps. */
  lemma RestoreEnds(run: seq<RestoreState>)
    requires Run(Next, run) && run[0] in LISTED
    ensures |run| - 1 <= StepsLeft(run[0]) <= 11
  {
    StepsDescend();
    hide Next;
    RankFalls(Next, LISTED, StepsLeft, run, 0, |run| - 1);
  }

  /** Eleven steps can be needed. */
  lemma ElevenStepsHappen() returns (run: seq<RestoreState>)
    ensures Run(Next, run) && run[0] == Requested && |run| == 12
  {
    run := [Requested, ApprovalRequired, Approved, ProvisioningTarget, Restoring, ValidatingSchema, ValidatingIndexes,
            ValidatingIntegrity, RebuildingProjections, ReadyForPromotion, Failed, CleanedUp];
  }

  /** The way every promoted restore went, one step after the other. */
  const VALIDATED: seq<RestoreState> :=
    [Approved, ProvisioningTarget, Restoring, ValidatingSchema, ValidatingIndexes, ValidatingIntegrity]

  lemma Predecessors()
    ensures EnteredOnlyFrom(Next, Promoted, {ReadyForPromotion})
    ensures EnteredOnlyFrom(Next, ReadyForPromotion, {ValidatingIntegrity, RebuildingProjections})
    ensures EnteredOnlyFrom(Next, RebuildingProjections, {ValidatingIntegrity})
    ensures forall i :: 0 < i < |VALIDATED| ==> EnteredOnlyFrom(Next, VALIDATED[i], {VALIDATED[i - 1]})
  {
  }

  /** Before state i of the validated way come the states before it on that way. */
  lemma {:induction false} CameThisWay(run: seq<RestoreState>, i: nat, j: nat)
    requires Run(Next, run) && run[0] == Requested
    requires i < |VALIDATED| && j < |run| && run[j] == VALIDATED[i]
    ensures j >= i + 1 && forall k :: 0 <= k <= i ==> run[j - i + k] == VALIDATED[k]
    decreases i
  {
    if i > 0 {
      Predecessors();
      EnteredFrom(Next, VALIDATED[i], {VALIDATED[i - 1]}, run, j);
      CameThisWay(run, i - 1, j - 1);
    }
  }

  /**
   * A restore that is promoted was approved, provisioned, restored and validated, in this order and without
   * interruption, just before (or one projection rebuild before) it became ready.
   */
  lemma PromotedWasValidated(run: seq<RestoreState>, j: nat) returns (k: nat)
    requires Run(Next, run) && run[0] == Requested && j < |run| && run[j] == Promoted
    ensures 0 < k && k + 7 <= j <= k + 8 && run[k..k + 6] == VALIDATED && run[j - 1] == ReadyForPromotion
  {
    Predecessors();
    EnteredFrom(Next, Promoted, {ReadyForPromotion}, run, j);
    EnteredFrom(Next, ReadyForPromotion, {ValidatingIntegrity, RebuildingProjections}, run, j - 1);
    var integrity := j - 2;
    if run[j - 2] == RebuildingProjections {
      EnteredFrom(Next, RebuildingProjections, {ValidatingIntegrity}, run, j - 2);
      integrity := j - 3;
    }
    CameThisWay(run, 5, integrity);
    k := integrity - 5;
    assert forall i :: 0 <= i <= 5 ==> run[k + i] == VALIDATED[i];
  }
}
