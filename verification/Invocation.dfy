/** The life of an invocation, and the older status names it is reported under. */
module Invocation {
  import opened Lifecycle

  datatype InvocationState =
    | Accepted | Validating | Authorized | WaitingForApproval | RetryScheduled | Running | WaitingForRuntime | Succeeded
    | Failed | Cancelled | TimedOut | RecoveryRequired | Unlisted(name: string)

  function Next(s: InvocationState): set<InvocationState> {
    match s
    case Accepted => {Validating, WaitingForApproval, RetryScheduled, RecoveryRequired, Cancelled}
    case Validating => {Authorized, RetryScheduled, Failed, RecoveryRequired, Cancelled}
    case Authorized => {Running, RetryScheduled, Failed, RecoveryRequired, Cancelled}
    case WaitingForApproval => {Authorized, Failed, Cancelled}
    case RetryScheduled => {Authorized, Failed, RecoveryRequired, Cancelled}
    case Running => {WaitingForRuntime, RetryScheduled, Failed, TimedOut, RecoveryRequired, Cancelled}
    case WaitingForRuntime => {Succeeded, RetryScheduled, Failed, TimedOut, RecoveryRequired, Cancelled}
    case Succeeded => {}
    case Failed => {}
    case Cancelled => {}
    case TimedOut => {}
    case RecoveryRequired => {Authorized, Running, Failed, Cancelled}
    case Unlisted(_) => {}
  }

  const TERMINAL: set<InvocationState> := {Succeeded, Failed, Cancelled, TimedOut}

  /** The terminal states are exactly the listed ones no run ever leaves. */
  lemma TerminalIsFinal(s: InvocationState)
    requires !s.Unlisted?
    ensures NeverLeft(Next, s) <==> s in TERMINAL
  {
    NeverLeftWhenNoExit(Next, s);
    if s !in TERMINAL { assert Cancelled in Next(s); }
  }

  /** In every run, execution starts straight from authorization or from recovery. */
  lemma RunningFollowsAuthorization(run: seq<InvocationState>, j: nat)
    requires Run(Next, run) && 0 < j < |run| && run[j] == Running
    ensures run[j - 1] in {Authorized, RecoveryRequired}
  {
    assert EnteredOnlyFrom(Next, Running, {Authorized, RecoveryRequired});
    EnteredFrom(Next, Running, {Authorized, RecoveryRequired}, run, j);
  }

  /** An invocation that succeeds was running, then waited for the runtime, right before. */
  lemma SuccessCameFromRuntime(run: seq<InvocationState>, j: nat)
    requires Run(Next, run) && run[0] == Accepted && j < |run| && run[j] == Succeeded
    ensures j == |run| - 1 && j >= 3
    ensures run[j - 2] == Running && run[j - 1] == WaitingForRuntime
    ensures run[j - 3] in {Authorized, RecoveryRequired}
  {
    assert EnteredOnlyFrom(Next, Succeeded, {WaitingForRuntime});
    EnteredFrom(Next, Succeeded, {WaitingForRuntime}, run, j);
    assert EnteredOnlyFrom(Next, WaitingForRuntime, {Running});
    EnteredFrom(Next, WaitingForRuntime, {Running}, run, j - 1);
    RunningFollowsAuthorization(run, j - 2);
    EndsWithoutExit(Next, run, j);
  }

  /** The states in which the agent is, or has been, at work. */
  const EXECUTED: set<InvocationState> := {Running, WaitingForRuntime, Succeeded, TimedOut}

  /** Nothing is executed before authorization exactly when recovery does not resume an unauthorized invocation. */
  lemma ExecutedOnlyAfterAuthorization(run: seq<InvocationState>)
    requires Run(Next, run) && run[0] == Accepted
    ensures OnlyAfter(run, EXECUTED, Authorized) <==> DetourOnlyAfter(run, RecoveryRequired, EXECUTED, Authorized)
  {
    DetourDecides(Next, EXECUTED, Authorized, RecoveryRequired, run);
  }

  /** The table lets recovery start an invocation that was never authorized. */
  lemma RecoveryBypassesAuthorization() returns (run: seq<InvocationState>)
    ensures Run(Next, run) && run[0] == Accepted && run[|run| - 1] == Succeeded && !Visits(run, Authorized, 0, |run|)
  {
    run := [Accepted, RecoveryRequired, Running, WaitingForRuntime, Succeeded];
  }

  // ---------- The older status names ----------

  datatype Legacy = LegacyQueued | LegacyRunning | LegacyCompleted | LegacyFailed

  function FromLegacy(l: Legacy): InvocationState {
    match l
    case LegacyQueued => Accepted
    case LegacyRunning => Running
    case LegacyCompleted => Succeeded
    case LegacyFailed => Failed
  }

  function ToLegacy(s: InvocationState): Legacy
    requires !s.Unlisted?
  {
    match s
    case Running => LegacyRunning
    case WaitingForRuntime => LegacyRunning
    case Succeeded => LegacyCompleted
    case Failed => LegacyFailed
    case Cancelled => LegacyFailed
    case TimedOut => LegacyFailed
    case RecoveryRequired => LegacyFailed
    case _ => LegacyQueued
  }

  /** Which states each older name stands for. */
  lemma LegacyNames(s: InvocationState)
    requires !s.Unlisted?
    ensures ToLegacy(s) == LegacyRunning <==> s.Running? || s.WaitingForRuntime?
    ensures ToLegacy(s) == LegacyCompleted <==> s.Succeeded?
    ensures ToLegacy(s) == LegacyFailed <==> s.Failed? || s.Cancelled? || s.TimedOut? || s.RecoveryRequired?
  {
  }

  /** Every state of the run has an older name; runs from `accepted` always satisfy this. */
  ghost predicate AllListed(run: seq<InvocationState>) {
    forall i :: 0 <= i < |run| ==> !run[i].Unlisted?
  }

  lemma {:induction false} RunIsListed(run: seq<InvocationState>, n: nat)
    requires Run(Next, run) && run[0] == Accepted && 0 < n <= |run|
    ensures AllListed(run[..n])
  {
    if n > 1 {
      RunIsListed(run, n - 1);
      assert !run[..n - 1][n - 2].Unlisted?;
      assert AssertTransition(Next, run[n - 2], run[n - 1]).Permitted?;
    }
  }

  /** A status survives the way to a state and back; a state exactly when it is one of the four that name a status. */
  lemma LegacyRoundTrip(l: Legacy, s: InvocationState)
    requires !s.Unlisted?
    ensures ToLegacy(FromLegacy(l)) == l
    ensures FromLegacy(ToLegacy(s)) == s <==> s in {Accepted, Running, Succeeded, Failed}
  {
  }

  /** Reported by its older names, an invocation becomes completed only while running, and that is the end of it. */
  lemma LegacyHistory(run: seq<InvocationState>, i: nat)
    requires Run(Next, run) && run[0] == Accepted && AllListed(run) && i + 1 < |run|
    ensures ToLegacy(run[i + 1]) == LegacyCompleted ==> ToLegacy(run[i]) == LegacyRunning && i + 2 == |run|
    ensures ToLegacy(run[i]) != LegacyCompleted
  {
    assert AssertTransition(Next, run[i], run[i + 1]).Permitted?;
    if run[i + 1] == Succeeded { EndsWithoutExit(Next, run, i + 1); }
  }

  /** No run that is in the state is ever reported as anything but failed afterwards. */
  ghost predicate StaysFailed(s: InvocationState) {
    forall run: seq<InvocationState>, i: nat, j: nat :: Run(Next, run) && i <= j < |run| && run[i] == s ==>
      !run[j].Unlisted? && ToLegacy(run[j]) == LegacyFailed
  }

  /** What is reported as failed stays so exactly when it does not need recovery; if it does, it can yet complete. */
  lemma LegacyFailedIsFinal(s: InvocationState)
    requires !s.Unlisted? && ToLegacy(s) == LegacyFailed
    ensures StaysFailed(s) <==> s != RecoveryRequired
    ensures Reaches(Next, s, Succeeded) <==> s == RecoveryRequired
  {
    if s == RecoveryRequired {
      var run := [RecoveryRequired, Running, WaitingForRuntime, Succeeded];
      assert Run(Next, run) && run[0] == s && run[|run| - 1] == Succeeded;
    } else {
      forall run: seq<InvocationState>, i: nat, j: nat | Run(Next, run) && i <= j < |run| && run[i] == s
        ensures run[j] == s
      {
        Stays(Next, {s}, run, i, j);
      }
      OutOfReach(Next, {s}, s, Succeeded);
    }
  }
}
