/** The lives of orchestration runs. */
module RunLifecycle {
  import opened Lifecycle

  datatype RunState =
    | Queued | Running | WaitingApproval | WaitingIntervention | RecoveryPending | Recovering | CompensationPending
    | Compensating | CompensationFailed | Recovered | Succeeded | Failed | CancelRequested | Cancelling | Cancelled
    | PartialFailure | TerminationRequested | Terminated | TerminatedWithAcceptedRisk | Unlisted(name: string)

  function RunNext(s: RunState): set<RunState> {
    match s
    case Queued => {Running, WaitingApproval, WaitingIntervention, RecoveryPending,
                    CompensationPending, Failed, CancelRequested, Cancelled,
                    TerminationRequested, Terminated}
    case Running => {WaitingApproval, WaitingIntervention, RecoveryPending,
                     Recovering, CompensationPending, Compensating, Succeeded,
                     Failed, CancelRequested, Cancelling, Cancelled, PartialFailure,
                     TerminationRequested, Terminated}
    case WaitingApproval => {Running, WaitingIntervention, RecoveryPending,
                             CompensationPending, Failed, CancelRequested,
                             Cancelled, PartialFailure, TerminationRequested, Terminated}
    case WaitingIntervention => {RecoveryPending, CompensationPending, Running,
                                 Failed, PartialFailure, CancelRequested, TerminationRequested,
                                 Terminated, TerminatedWithAcceptedRisk}
    case RecoveryPending => {Recovering, WaitingIntervention, CompensationPending,
                             Failed, TerminationRequested, Terminated}
    case Recovering => {Running, RecoveryPending, WaitingIntervention,
                        CompensationPending, Recovered, Failed, TerminationRequested,
                        Terminated}
    case CompensationPending => {Compensating, WaitingIntervention, CompensationFailed,
                                 Failed, Cancelled, TerminationRequested, Terminated}
    case Compensating => {CompensationPending, WaitingIntervention, CompensationFailed,
                          Failed, PartialFailure, Cancelled, TerminationRequested,
                          Terminated, TerminatedWithAcceptedRisk}
    case CompensationFailed => {WaitingIntervention, Failed, PartialFailure, TerminationRequested,
                                Terminated, TerminatedWithAcceptedRisk}
    case Recovered => {Running, Succeeded, PartialFailure, Failed,
                       CancelRequested, TerminationRequested}
    case CancelRequested => {Cancelling, CompensationPending, Cancelled, TerminationRequested,
                             Terminated}
    case Cancelling => {CompensationPending, WaitingIntervention, Cancelled,
                        TerminationRequested, Terminated}
    case TerminationRequested => {Terminated, TerminatedWithAcceptedRisk}
    case Succeeded => {}
    case Failed => {}
    case Cancelled => {}
    case PartialFailure => {}
    case Terminated => {}
    case TerminatedWithAcceptedRisk => {}
    case Unlisted(_) => {}
  }

  const TERMINAL_RUN_STATUSES: set<RunState> :=
    {Succeeded, Failed, Cancelled, PartialFailure, Terminated,
     TerminatedWithAcceptedRisk}

  /** A run that is being cancelled, taken back or ended. */
  const WINDING_DOWN: set<RunState> :=
    {CancelRequested, Cancelling, CompensationPending, Compensating,
     CompensationFailed, Failed, Cancelled, PartialFailure, TerminationRequested,
     Terminated, TerminatedWithAcceptedRisk}

  /** A run that winds down runs or succeeds again only after an operator has intervened. */
  lemma WindingDownNeedsIntervention(run: seq<RunState>, i: nat, j: nat)
    requires Run(RunNext, run) && i < j < |run| && run[i] in WINDING_DOWN && run[j] !in WINDING_DOWN
    ensures Visits(run, WaitingIntervention, i + 1, j + 1)
  {
    assert LeavesOnlyThrough(RunNext, WINDING_DOWN, WaitingIntervention) by {
      forall s, t | s in WINDING_DOWN && t in RunNext(s)
        ensures t in WINDING_DOWN || t == WaitingIntervention
      {
      }
    }
    MustPass(RunNext, WINDING_DOWN, WaitingIntervention, run, i, j);
  }

  /** The terminal run states are exactly the listed states no run ever leaves. */
  lemma TerminalRunIsFinal(s: RunState)
    requires !s.Unlisted?
    ensures NeverLeft(RunNext, s) <==> s in TERMINAL_RUN_STATUSES
  {
    NeverLeftWhenNoExit(RunNext, s);
    if s !in TERMINAL_RUN_STATUSES {
      assert Terminated in RunNext(s) || TerminationRequested in RunNext(s);
    }
  }

  function WayToSucceeded(s: RunState): seq<RunState> {
    match s
    case Succeeded => [s]
    case Running => [s, Succeeded]
    case Recovered => [s, Succeeded]
    case RecoveryPending => [s, Recovering, Recovered, Succeeded]
    case Recovering => [s, Recovered, Succeeded]
    case CancelRequested => [s, Cancelling, WaitingIntervention, Running, Succeeded]
    case Cancelling => [s, WaitingIntervention, Running, Succeeded]
    case CompensationPending => [s, WaitingIntervention, Running, Succeeded]
    case Compensating => [s, WaitingIntervention, Running, Succeeded]
    case CompensationFailed => [s, WaitingIntervention, Running, Succeeded]
    case _ => [s, Running, Succeeded]
  }

  /** A run can still succeed exactly until it has ended otherwise or its termination was requested. */
  lemma CanStillSucceed(s: RunState)
    requires !s.Unlisted?
    ensures Reaches(RunNext, s, Succeeded)
            <==> s == Succeeded || (s !in TERMINAL_RUN_STATUSES && s != TerminationRequested)
  {
    if s != Succeeded && (s in TERMINAL_RUN_STATUSES || s == TerminationRequested) {
      OutOfReach(RunNext, {s, Terminated, TerminatedWithAcceptedRisk}, s, Succeeded);
    } else {
      var way := WayToSucceeded(s);
      assert Run(RunNext, way) && way[0] == s && way[|way| - 1] == Succeeded;
    }
  }
}
