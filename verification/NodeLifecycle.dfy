/** The lives of orchestration nodes. */
module NodeLifecycle {
  import opened Lifecycle

  datatype NodeState =
    | Blocked | Ready | Queued | Running | RetryWait | WaitingApproval | WaitingIntervention | RecoveryPending
    | Recovering | Succeeded | Failed | Cancelled | Skipped | CancelRequested | CompensationPending | Compensating
    | Compensated | CompensationFailed | NonReversible | Terminated | Unlisted(name: string)

  function NodeNext(s: NodeState): set<NodeState> {
    match s
    case Blocked => {Ready, RetryWait, WaitingIntervention, CancelRequested, Cancelled, Skipped, Terminated}
    case Ready => {Blocked, Queued, Running, WaitingIntervention, CancelRequested, Cancelled, Skipped, Terminated}
    case Queued => {Running, WaitingIntervention, CancelRequested, Cancelled, Skipped, Terminated}
    case Running => {Ready, RetryWait, WaitingApproval, WaitingIntervention, RecoveryPending, Succeeded, Failed,
                     CancelRequested, Cancelled, Terminated}
    case RetryWait => {Blocked, Ready, Running, WaitingIntervention, CancelRequested, Cancelled, Skipped, Terminated}
    case WaitingApproval => {Blocked, Ready, Failed, WaitingIntervention, CancelRequested, Cancelled, Terminated}
    case WaitingIntervention => {RecoveryPending, CompensationPending, RetryWait, Skipped, Failed, CancelRequested,
                                 Cancelled, Terminated}
    case RecoveryPending => {Recovering, RetryWait, WaitingIntervention, CompensationPending, Failed, Terminated}
    case Recovering => {Ready, RetryWait, WaitingIntervention, CompensationPending, Succeeded, Failed, Terminated}
    case Succeeded => {CompensationPending, NonReversible, Terminated}
    case Failed => {RecoveryPending, WaitingIntervention, CompensationPending, RetryWait, Skipped, Terminated}
    case CancelRequested => {Cancelled, CompensationPending, Terminated}
    case CompensationPending => {Compensating, WaitingIntervention, Compensated, CompensationFailed, Terminated}
    case Compensating => {CompensationPending, WaitingIntervention, Compensated, CompensationFailed, Terminated}
    case CompensationFailed => {WaitingIntervention, CompensationPending, Terminated}
    case NonReversible => {WaitingIntervention, Terminated}
    case Cancelled => {}
    case Skipped => {}
    case Compensated => {}
    case Terminated => {}
    case Unlisted(_) => {}
  }

  const TERMINAL_NODE_STATUSES: set<NodeState> :=
    {Succeeded, Failed, Cancelled, Skipped, Compensated, CompensationFailed,
     NonReversible, Terminated}

  /** States past the point where work was done, cancelled or taken back. */
  const SETTLED_NODE: set<NodeState> :=
    {Succeeded, CancelRequested, CompensationPending, Compensating, Compensated,
     CompensationFailed, NonReversible, Cancelled, Skipped, Terminated}

  /** A settled node runs, waits to retry or is queued again only after an operator has intervened. */
  lemma SettledNodeNeedsIntervention(run: seq<NodeState>, i: nat, j: nat)
    requires Run(NodeNext, run) && i < j < |run| && run[i] in SETTLED_NODE && run[j] !in SETTLED_NODE
    ensures Visits(run, WaitingIntervention, i + 1, j + 1)
  {
    assert LeavesOnlyThrough(NodeNext, SETTLED_NODE, WaitingIntervention) by {
      forall s, t | s in SETTLED_NODE && t in NodeNext(s)
        ensures t in SETTLED_NODE || t == WaitingIntervention
      {
      }
    }
    MustPass(NodeNext, SETTLED_NODE, WaitingIntervention, run, i, j);
  }

  /** Of the states listed as terminal, a run can still go on from these. */
  const REOPENABLE: set<NodeState> := {Succeeded, Failed, CompensationFailed, NonReversible}

  /** A node listed as terminal has really ended exactly when it is not one of the four reopenable states. */
  lemma ListedTerminalIsFinal(s: NodeState)
    requires s in TERMINAL_NODE_STATUSES
    ensures NeverLeft(NodeNext, s) <==> s !in REOPENABLE
  {
    NeverLeftWhenNoExit(NodeNext, s);
    assert Terminated in NodeNext(s) || NodeNext(s) == {};
  }

  /** The states from which nothing more is executed. */
  const ENDED_NODE: set<NodeState> := {Cancelled, Skipped, Compensated, Terminated}

  /** A way from a state to execution; one that has succeeded can be brought there through compensation. */
  function WayToRunning(s: NodeState): seq<NodeState> {
    match s
    case Blocked => [s, Ready, Running]
    case Running => [s]
    case WaitingApproval => [s, Ready, Running]
    case WaitingIntervention => [s, RetryWait, Running]
    case RecoveryPending => [s, RetryWait, Running]
    case Recovering => [s, Ready, Running]
    case Failed => [s, RetryWait, Running]
    case Succeeded => [s, CompensationPending, WaitingIntervention, RetryWait, Running]
    case CancelRequested => [s, CompensationPending, WaitingIntervention, RetryWait, Running]
    case CompensationPending => [s, WaitingIntervention, RetryWait, Running]
    case Compensating => [s, WaitingIntervention, RetryWait, Running]
    case CompensationFailed => [s, WaitingIntervention, RetryWait, Running]
    case NonReversible => [s, WaitingIntervention, RetryWait, Running]
    case _ => [s, Running]
  }

  /** A node can come to run (again) from every state but the four ended ones, from a succeeded one too. */
  lemma CanStillRun(s: NodeState)
    requires !s.Unlisted?
    ensures Reaches(NodeNext, s, Running) <==> s !in ENDED_NODE
  {
    if s in ENDED_NODE {
      OutOfReach(NodeNext, {s}, s, Running);
    } else {
      var way := WayToRunning(s);
      assert Run(NodeNext, way) && way[0] == s && way[|way| - 1] == Running;
    }
  }
}
