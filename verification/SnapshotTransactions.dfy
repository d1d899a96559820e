/**
 * Store operations running side by side as snapshot transactions: each attempt works on the database as it
 * was when the attempt began, keeps its writes to itself, and commits only when nobody has meanwhile
 * committed a write to a document it writes; otherwise the whole operation is tried again.
 */
module SnapshotTransactions {
  import opened Wrappers

  import opened Documents
  import opened Programs

  /**
   * One transaction under way, for one call. `invoked` and `start` count the commits made before the call and
   * before this try.
   */
  datatype Attempt = Attempt(
    call: nat,
    op: Operation,
    invoked: nat,
    start: nat,
    snapshot: Database,
    armed: Option<bool>,
    rest: Statement,
    buffer: Writes)

  datatype Commit = Commit(op: Operation, armed: bool, outcome: Outcome, writes: Writes)

  /** What a caller got back, and the number of commits before the instant the call took effect. */
  datatype Reply = Reply(
    call: nat,
    op: Operation,
    armed: bool,
    outcome: Outcome,
    invoked: nat,
    at: nat,
    returned: nat,
    wrote: bool)

  datatype System = System(
    db: Database,
    log: seq<Commit>,
    live: map<nat, Attempt>,
    replies: seq<Reply>,
    calls: nat,
    injection: bool)

  datatype Event =
    | Begin(caller: nat, op: Operation)
    | Advance(caller: nat)
    | Finish(caller: nat)
    | Retry(caller: nat)
    | GiveUp(caller: nat)
    | ArmInjection

  function Fresh(s: System, call: nat, op: Operation, invoked: nat): Attempt {
    Attempt(call, op, invoked, |s.log|, s.db, None, Program(op), map[])
  }

  function Flag(armed: Option<bool>): bool {
    armed.Some? && armed.value
  }

  /** First committer wins: somebody committed a write to one of the buffered documents since the snapshot. */
  predicate Conflicts(log: seq<Commit>, a: Attempt) {
    exists j :: 0 <= j < |log| && a.start <= j && log[j].writes.Keys * a.buffer.Keys != {}
  }

  /** One read, one buffered write, or one look at the failure-injection switch. */
  function Advanced(a: Attempt, injection: bool): Attempt {
    match a.rest
    case FindThen(addr, point) => a.(rest := Resume(point, View(a.snapshot, a.buffer, addr)))
    case WriteThen(addr, doc, rest) => a.(rest := rest, buffer := a.buffer[addr := doc])
    case ProbeThen(t) =>
      var armed := if a.armed.Some? then a.armed.value else injection;
      a.(rest := AfterProbe(t, armed), armed := Some(armed))
    case Done(_) => a
  }

  function AfterFinish(s: System, caller: nat, a: Attempt): System
    requires a.rest.Done?
  {
    var outcome := a.rest.outcome;
    if outcome.Thrown? || a.buffer == map[] then
      s.(live := s.live - {caller},
         replies := s.replies + [Reply(a.call, a.op, Flag(a.armed), outcome, a.invoked, a.start, |s.log|, false)])
    else if Conflicts(s.log, a) then
      s.(live := s.live[caller := Fresh(s, a.call, a.op, a.invoked)])
    else
      s.(db := ApplyWrites(s.db, a.buffer),
         log := s.log + [Commit(a.op, Flag(a.armed), outcome, a.buffer)],
         live := s.live - {caller},
         replies := s.replies + [Reply(a.call, a.op, Flag(a.armed), outcome, a.invoked, |s.log|, |s.log| + 1, true)])
  }

  /** One event; an event that cannot happen changes nothing. */
  function Next(s: System, e: Event): System {
    match e
    case Begin(caller, op) =>
      if caller in s.live then s
      else s.(live := s.live[caller := Fresh(s, s.calls, op, |s.log|)], calls := s.calls + 1)
    case Advance(caller) =>
      if caller !in s.live then s
      else
        var a := s.live[caller];
        s.(live := s.live[caller := Advanced(a, s.injection)], injection := s.injection && !a.rest.ProbeThen?)
    case Finish(caller) =>
      if caller in s.live && s.live[caller].rest.Done? then AfterFinish(s, caller, s.live[caller]) else s
    case Retry(caller) =>
      if caller !in s.live then s
      else
        var a := s.live[caller];
        s.(live := s.live[caller := Fresh(s, a.call, a.op, a.invoked)])
    case GiveUp(caller) => s.(live := s.live - {caller})
    case ArmInjection => s.(injection := true)
  }

  function Execute(initial: Database, events: seq<Event>): System {
    if events == [] then System(initial, [], map[], [], 0, false)
    else Next(Execute(initial, events[..|events| - 1]), events[|events| - 1])
  }

  /** The database after running the logged operations one at a time, each alone. */
  function Serial(initial: Database, log: seq<Commit>): Database {
    if log == [] then initial
    else
      var last := log[|log| - 1];
      Atomic(Serial(initial, log[..|log| - 1]), last.op, last.armed).db
  }

  /** Commit i is what its operation does alone on the state left by the commits before it. */
  ghost predicate CommitIsAtomic(initial: Database, log: seq<Commit>, i: nat)
    requires i < |log|
  {
    var c := log[i];
    var effect := Atomic(Serial(initial, log[..i]), c.op, c.armed);
    !c.outcome.Thrown? && c.writes != map[] && effect.outcome == c.outcome && effect.writes == c.writes
  }

  /**
   * A reply is the one the operation gives alone, on the state at an instant between call and return; if it
   * wrote, it is the commit made at that instant.
   */
  ghost predicate ReplyIsAtomic(initial: Database, log: seq<Commit>, r: Reply) {
    && r.invoked <= r.at <= r.returned <= |log|
    && r.outcome == Atomic(Serial(initial, log[..r.at]), r.op, r.armed).outcome
    && (r.wrote ==> r.at < r.returned && log[r.at].op == r.op && log[r.at].armed == r.armed)
    && (!r.wrote ==> Atomic(Serial(initial, log[..r.at]), r.op, r.armed).writes == map[])
  }

  /** The commits made by the writing replies, in the order of the replies. */
  function CommitsOf(replies: seq<Reply>): seq<nat> {
    if replies == [] then []
    else
      var last := replies[|replies| - 1];
      CommitsOf(replies[..|replies| - 1]) + (if last.wrote then [last.at] else [])
  }

  /** Strict serializability: see the parts. Each commit answers exactly one call, in commit order. */
  ghost predicate StrictlySerial(initial: Database, s: System) {
    && s.db == Serial(initial, s.log)
    && LogIsAtomic(initial, s.log)
    && RepliesAreAtomic(initial, s.log, s.replies)
    && CommitsOf(s.replies) == UpTo(|s.log|)
  }

  ghost predicate LogIsAtomic(initial: Database, log: seq<Commit>) {
    forall i :: 0 <= i < |log| ==> CommitIsAtomic(initial, log, i)
  }

  ghost predicate RepliesAreAtomic(initial: Database, log: seq<Commit>, replies: seq<Reply>) {
    forall i :: 0 <= i < |replies| ==> ReplyIsAtomic(initial, log, replies[i])
  }

  /** 0, 1, ..., n - 1. */
  function UpTo(n: nat): seq<nat> {
    if n == 0 then [] else UpTo(n - 1) + [n - 1]
  }

  /** However the rest of the attempt sees the switch, it ends as the whole operation does on the snapshot. */
  ghost predicate Residual(a: Attempt) {
    forall armed: bool :: (a.armed.Some? ==> armed == a.armed.value) ==>
      SameEnd(Run(Program(a.op), a.snapshot, map[], armed), Run(a.rest, a.snapshot, a.buffer, armed))
  }

  ghost predicate AttemptValid(initial: Database, log: seq<Commit>, a: Attempt) {
    && a.invoked <= a.start <= |log|
    && a.snapshot == Serial(initial, log[..a.start])
    && Residual(a)
  }

  ghost predicate Valid(initial: Database, s: System) {
    && StrictlySerial(initial, s)
    && (forall caller :: caller in s.live ==> AttemptValid(initial, s.log, s.live[caller]))
  }

  /** A document no commit has written since a point in the log is still as it was there. */
  lemma {:induction false} UntouchedSince(initial: Database, log: seq<Commit>, start: nat, addr: Addr)
    requires start <= |log|
    requires LogIsAtomic(initial, log)
    requires forall j :: start <= j < |log| ==> addr !in log[j].writes
    ensures Lookup(Serial(initial, log), addr) == Lookup(Serial(initial, log[..start]), addr)
    decreases |log|
  {
    if start == |log| {
      assert log[..start] == log;
    } else {
      var shorter := log[..|log| - 1];
      assert shorter[..start] == log[..start];
      PrefixAtomic(initial, shorter, log[|log| - 1]);
      assert log == shorter + [log[|log| - 1]];
      UntouchedSince(initial, shorter, start, addr);
      assert CommitIsAtomic(initial, log, |log| - 1);
    }
  }

  /** Adding a commit leaves what was already logged, answered or begun as valid as it was. */
  lemma PrefixAtomic(initial: Database, log: seq<Commit>, c: Commit)
    ensures LogIsAtomic(initial, log + [c])
            <==> LogIsAtomic(initial, log) && CommitIsAtomic(initial, log + [c], |log|)
  {
    forall i | 0 <= i < |log|
      ensures CommitIsAtomic(initial, log + [c], i) <==> CommitIsAtomic(initial, log, i)
    {
      assert (log + [c])[..i] == log[..i];
    }
    assert LogIsAtomic(initial, log + [c]) ==> CommitIsAtomic(initial, log + [c], |log|);
    assert LogIsAtomic(initial, log + [c]) ==> forall i :: 0 <= i < |log| ==> CommitIsAtomic(initial, log + [c], i);
  }

  lemma ReplyStaysAtomic(initial: Database, log: seq<Commit>, c: Commit, r: Reply)
    requires ReplyIsAtomic(initial, log, r)
    ensures ReplyIsAtomic(initial, log + [c], r)
  {
    assert (log + [c])[..r.at] == log[..r.at];
  }

  lemma AttemptStaysValid(initial: Database, log: seq<Commit>, c: Commit, a: Attempt)
    requires AttemptValid(initial, log, a)
    ensures AttemptValid(initial, log + [c], a)
  {
    assert (log + [c])[..a.start] == log[..a.start];
  }

  /** The commit of an attempt nobody conflicts with is the atomic operation on the current state. */
  lemma CommitTakesEffectNow(initial: Database, s: System, a: Attempt)
    requires StrictlySerial(initial, s) && AttemptValid(initial, s.log, a)
    requires a.rest.Done? && !a.rest.outcome.Thrown? && a.buffer != map[] && !Conflicts(s.log, a)
    ensures Atomic(s.db, a.op, Flag(a.armed)) == Effect(a.rest.outcome, a.buffer, ApplyWrites(s.db, a.buffer))
  {
    var armed := Flag(a.armed);
    var whole := Run(Program(a.op), a.snapshot, map[], armed);
    assert whole.outcome == a.rest.outcome && whole.writes == a.buffer;
    DecidingReadsAreWritten(a.snapshot, a.op, armed);
    forall addr | addr in whole.observed
      ensures Lookup(a.snapshot, addr) == Lookup(s.db, addr)
    {
      forall j | a.start <= j < |s.log|
        ensures addr !in s.log[j].writes
      {
        assert s.log[j].writes.Keys * a.buffer.Keys == {};
        assert addr in a.buffer.Keys && addr !in s.log[j].writes.Keys * a.buffer.Keys;
      }
      UntouchedSince(initial, s.log, a.start, addr);
    }
    RunAgrees(Program(a.op), a.snapshot, s.db, map[], armed);
  }

  /** A call that writes nothing answers as the atomic operation does on its snapshot. */
  lemma ReadOnlyTookEffectAtStart(initial: Database, log: seq<Commit>, a: Attempt)
    requires AttemptValid(initial, log, a) && a.rest.Done?
    requires a.rest.outcome.Thrown? || a.buffer == map[]
    ensures Atomic(a.snapshot, a.op, Flag(a.armed)).outcome == a.rest.outcome
    ensures Atomic(a.snapshot, a.op, Flag(a.armed)).writes == map[]
  {
    var whole := Run(Program(a.op), a.snapshot, map[], Flag(a.armed));
    assert whole.outcome == a.rest.outcome && whole.writes == a.buffer;
  }

  lemma ReplyAppended(initial: Database, log: seq<Commit>, replies: seq<Reply>, r: Reply)
    requires RepliesAreAtomic(initial, log, replies) && ReplyIsAtomic(initial, log, r)
    ensures RepliesAreAtomic(initial, log, replies + [r])
    ensures CommitsOf(replies + [r]) == CommitsOf(replies) + (if r.wrote then [r.at] else [])
  {
    assert (replies + [r])[..|replies|] == replies;
  }

  lemma CommitKeepsSerial(initial: Database, s: System, a: Attempt, c: Commit, r: Reply)
    requires StrictlySerial(initial, s) && AttemptValid(initial, s.log, a)
    requires a.rest.Done? && !a.rest.outcome.Thrown? && a.buffer != map[] && !Conflicts(s.log, a)
    requires c == Commit(a.op, Flag(a.armed), a.rest.outcome, a.buffer)
    requires r == Reply(a.call, a.op, Flag(a.armed), a.rest.outcome, a.invoked, |s.log|, |s.log| + 1, true)
    ensures ApplyWrites(s.db, a.buffer) == Serial(initial, s.log + [c])
    ensures LogIsAtomic(initial, s.log + [c])
    ensures RepliesAreAtomic(initial, s.log + [c], s.replies + [r])
    ensures CommitsOf(s.replies + [r]) == UpTo(|s.log| + 1)
  {
    CommitTakesEffectNow(initial, s, a);
    var log := s.log + [c];
    assert log[..|s.log|] == s.log && log[|s.log|] == c;
    assert CommitIsAtomic(initial, log, |s.log|);
    PrefixAtomic(initial, s.log, c);
    assert ReplyIsAtomic(initial, log, r);
    forall i | 0 <= i < |s.replies|
      ensures ReplyIsAtomic(initial, log, s.replies[i])
    {
      ReplyStaysAtomic(initial, s.log, c, s.replies[i]);
    }
    ReplyAppended(initial, log, s.replies, r);
  }

  lemma ReplyKeepsSerial(initial: Database, s: System, a: Attempt, r: Reply)
    requires StrictlySerial(initial, s) && AttemptValid(initial, s.log, a)
    requires a.rest.Done? && (a.rest.outcome.Thrown? || a.buffer == map[])
    requires r == Reply(a.call, a.op, Flag(a.armed), a.rest.outcome, a.invoked, a.start, |s.log|, false)
    ensures RepliesAreAtomic(initial, s.log, s.replies + [r])
    ensures CommitsOf(s.replies + [r]) == UpTo(|s.log|)
  {
    ReadOnlyTookEffectAtStart(initial, s.log, a);
    assert ReplyIsAtomic(initial, s.log, r);
    ReplyAppended(initial, s.log, s.replies, r);
  }

  lemma AttemptsStayValid(initial: Database, s: System, c: Commit)
    requires Valid(initial, s)
    ensures forall caller :: caller in s.live ==> AttemptValid(initial, s.log + [c], s.live[caller])
  {
    forall caller | caller in s.live
      ensures AttemptValid(initial, s.log + [c], s.live[caller])
    {
      AttemptStaysValid(initial, s.log, c, s.live[caller]);
    }
  }

  lemma FinishKeepsValid(initial: Database, s: System, caller: nat)
    requires Valid(initial, s) && caller in s.live && s.live[caller].rest.Done?
    ensures Valid(initial, AfterFinish(s, caller, s.live[caller]))
  {
    hide Run, Resume, Program, ApplyWrites, Conflicts, Serial, CommitsOf, UpTo, LogIsAtomic, RepliesAreAtomic;
    var a := s.live[caller];
    var next := AfterFinish(s, caller, a);
    if a.rest.outcome.Thrown? || a.buffer == map[] {
      ReplyKeepsSerial(initial, s, a, next.replies[|s.replies|]);
    } else if Conflicts(s.log, a) {
      BeginKeepsValid(initial, s, caller, a.call, a.op, a.invoked, s.calls);
    } else {
      CommitKeepsSerial(initial, s, a, next.log[|s.log|], next.replies[|s.replies|]);
      AttemptsStayValid(initial, s, next.log[|s.log|]);
    }
  }

  lemma FreshIsValid(initial: Database, s: System, call: nat, op: Operation, invoked: nat)
    requires StrictlySerial(initial, s) && invoked <= |s.log|
    ensures AttemptValid(initial, s.log, Fresh(s, call, op, invoked))
  {
    assert s.log[..|s.log|] == s.log;
  }

  lemma AdvanceKeepsEnd(a: Attempt, injection: bool, armed: bool)
    requires var b := Advanced(a, injection); b.armed.Some? ==> armed == b.armed.value
    ensures var b := Advanced(a, injection);
            SameEnd(Run(a.rest, a.snapshot, a.buffer, armed), Run(b.rest, b.snapshot, b.buffer, armed))
  {
    match a.rest
    case FindThen(addr, point) => RunFindStep(addr, point, a.snapshot, a.buffer, armed);
    case _ =>
  }

  lemma AdvanceKeepsResidual(a: Attempt, injection: bool)
    requires Residual(a)
    ensures Residual(Advanced(a, injection))
  {
    var b := Advanced(a, injection);
    if b.armed != Some(false) { AdvanceKeepsEnd(a, injection, true); }
    if b.armed != Some(true) { AdvanceKeepsEnd(a, injection, false); }
  }

  /** An event that only replaces one caller's attempt. */
  lemma LiveUpdateKeepsValid(initial: Database, s: System, caller: nat, a: Attempt, calls: nat, injection: bool)
    requires Valid(initial, s) && AttemptValid(initial, s.log, a)
    ensures Valid(initial, s.(live := s.live[caller := a], calls := calls, injection := injection))
  {
  }

  lemma AdvanceKeepsValid(initial: Database, s: System, caller: nat)
    requires Valid(initial, s) && caller in s.live
    ensures Valid(initial, Next(s, Advance(caller)))
  {
    var a := s.live[caller];
    AdvanceKeepsResidual(a, s.injection);
    LiveUpdateKeepsValid(initial, s, caller, Advanced(a, s.injection), s.calls, s.injection && !a.rest.ProbeThen?);
  }

  lemma BeginKeepsValid(initial: Database, s: System, caller: nat, call: nat, op: Operation, invoked: nat, calls: nat)
    requires Valid(initial, s) && invoked <= |s.log|
    ensures Valid(initial, s.(live := s.live[caller := Fresh(s, call, op, invoked)], calls := calls))
  {
    FreshIsValid(initial, s, call, op, invoked);
    LiveUpdateKeepsValid(initial, s, caller, Fresh(s, call, op, invoked), calls, s.injection);
  }

  lemma NextKeepsValid(initial: Database, s: System, e: Event)
    requires Valid(initial, s)
    ensures Valid(initial, Next(s, e))
  {
    match e
    case Begin(caller, op) => BeginKeepsValid(initial, s, caller, s.calls, op, |s.log|, s.calls + 1);
    case Advance(caller) =>
      if caller in s.live { AdvanceKeepsValid(initial, s, caller); }
    case Finish(caller) =>
      if caller in s.live && s.live[caller].rest.Done? { FinishKeepsValid(initial, s, caller); }
    case Retry(caller) =>
      if caller in s.live {
        var a := s.live[caller];
        BeginKeepsValid(initial, s, caller, a.call, a.op, a.invoked, s.calls);
      }
    case _ =>
  }

  /**
   * Under every schedule the stores are as if the committed operations had run one at a time in commit order,
   * and every answer is the one its operation gives alone at an instant inside the call.
   */
  lemma {:induction false} EveryScheduleIsStrictlySerial(initial: Database, events: seq<Event>)
    ensures Valid(initial, Execute(initial, events))
    ensures StrictlySerial(initial, Execute(initial, events))
  {
    if events != [] {
      EveryScheduleIsStrictlySerial(initial, events[..|events| - 1]);
      NextKeepsValid(initial, Execute(initial, events[..|events| - 1]), events[|events| - 1]);
    }
  }

  /**
   * A terminal commit that comes to its second write while the switch is set fails there, and clears the switch: the
   * next one does not fail. One that finds it cleared goes on.
   */
  lemma InjectionStrikesOnce(s: System, caller: nat, t: Terminal)
    requires caller in s.live && s.live[caller].rest == ProbeThen(t) && s.live[caller].armed.None?
    ensures var next := Next(s, Advance(caller));
            && caller in next.live && !next.injection && next.db == s.db
            && (s.injection ==> next.live[caller].rest == Done(Thrown(InjectedFailure)))
            && (!s.injection ==>
                  next.live[caller].rest
                  == WriteThen(InTasks(t.task.taskId), Some(TaskDoc(t.task)),
                               Done(Committed(false, t.task, Some(ReceiptDoc(t.receipt))))))
  {
  }

  // ---------- Order in time ----------

  /** Calls made since an earlier moment know of every commit up to then; answers given before it stand. */
  ghost predicate Since(earlier: System, s: System) {
    && earlier.calls <= s.calls
    && earlier.log <= s.log
    && earlier.replies <= s.replies
    && (forall caller :: caller in s.live && s.live[caller].call >= earlier.calls ==>
          s.live[caller].invoked >= |earlier.log|)
    && (forall i :: |earlier.replies| <= i < |s.replies| && s.replies[i].call >= earlier.calls ==>
          s.replies[i].invoked >= |earlier.log|)
  }

  lemma FinishKeepsSince(earlier: System, s: System, caller: nat)
    requires Since(earlier, s) && caller in s.live && s.live[caller].rest.Done?
    ensures Since(earlier, AfterFinish(s, caller, s.live[caller]))
  {
    hide Program, ApplyWrites, Conflicts;
  }

  lemma NextKeepsSince(earlier: System, s: System, e: Event)
    requires Since(earlier, s)
    ensures Since(earlier, Next(s, e))
  {
    hide Run, Resume, Program, AfterProbe, AfterFinish, View, ApplyWrites;
    match e
    case Finish(caller) =>
      if caller in s.live && s.live[caller].rest.Done? { FinishKeepsSince(earlier, s, caller); }
    case _ =>
  }

  ghost predicate Counted(s: System) {
    forall caller :: caller in s.live ==> s.live[caller].call < s.calls
  }

  lemma NextKeepsCounted(s: System, e: Event)
    requires Counted(s)
    ensures Counted(Next(s, e))
  {
    hide Run, Resume, Program;
  }

  lemma {:induction false} CallsAreCounted(initial: Database, events: seq<Event>)
    ensures Counted(Execute(initial, events))
  {
    if events != [] {
      CallsAreCounted(initial, events[..|events| - 1]);
      NextKeepsCounted(Execute(initial, events[..|events| - 1]), events[|events| - 1]);
    }
  }

  lemma SinceItself(s: System)
    requires Counted(s)
    ensures Since(s, s)
  {
  }

  lemma ExecuteStep(initial: Database, events: seq<Event>, e: Event)
    ensures Execute(initial, events + [e]) == Next(Execute(initial, events), e)
  {
    hide Next;
    assert (events + [e])[..|events|] == events;
  }

  lemma {:induction false} RunKeepsSince(initial: Database, before: seq<Event>, after: seq<Event>)
    requires Counted(Execute(initial, before))
    ensures Since(Execute(initial, before), Execute(initial, before + after))
  {
    hide Execute, Next, Since;
    if after == [] {
      assert before + after == before;
      SinceItself(Execute(initial, before));
    } else {
      var front, last := after[..|after| - 1], after[|after| - 1];
      RunKeepsSince(initial, before, front);
      assert before + after == (before + front) + [last];
      ExecuteStep(initial, before + front, last);
      NextKeepsSince(Execute(initial, before), Execute(initial, before + front), last);
    }
  }

  /** Answered and live calls are all different, and were all made. */
  ghost predicate CallsDiffer(s: System) {
    && Counted(s)
    && (forall i :: 0 <= i < |s.replies| ==> s.replies[i].call < s.calls)
    && (forall i, j :: 0 <= i < j < |s.replies| ==> s.replies[i].call != s.replies[j].call)
    && (forall i, caller :: 0 <= i < |s.replies| && caller in s.live ==> s.replies[i].call != s.live[caller].call)
    && (forall caller, other :: caller in s.live && other in s.live && caller != other ==>
          s.live[caller].call != s.live[other].call)
  }

  /** A caller's attempt takes the place of one for the same call, or is the first one for a new call. */
  lemma AttemptKeepsCallsDifferent(s: System, caller: nat, a: Attempt, calls: nat, injection: bool)
    requires CallsDiffer(s) && s.calls <= calls
    requires if caller in s.live then a.call == s.live[caller].call else s.calls <= a.call < calls
    ensures CallsDiffer(s.(live := s.live[caller := a], calls := calls, injection := injection))
  {
  }

  lemma AnswerKeepsCallsDifferent(s: System, caller: nat, r: Reply, next: System)
    requires CallsDiffer(s) && caller in s.live && r.call == s.live[caller].call
    requires next.live == s.live - {caller} && next.replies == s.replies + [r] && next.calls == s.calls
    ensures CallsDiffer(next)
  {
  }

  lemma FewerLiveCalls(s: System, caller: nat)
    requires CallsDiffer(s)
    ensures CallsDiffer(s.(live := s.live - {caller}))
  {
  }

  lemma SwitchKeepsCallsDifferent(s: System)
    requires CallsDiffer(s)
    ensures CallsDiffer(s.(injection := true))
  {
  }

  lemma FinishKeepsCallsDifferent(s: System, caller: nat)
    requires CallsDiffer(s) && caller in s.live && s.live[caller].rest.Done?
    ensures CallsDiffer(AfterFinish(s, caller, s.live[caller]))
  {
    hide Program, ApplyWrites, Conflicts, CallsDiffer;
    var a := s.live[caller];
    var next := AfterFinish(s, caller, a);
    if !a.rest.outcome.Thrown? && a.buffer != map[] && Conflicts(s.log, a) {
      AttemptKeepsCallsDifferent(s, caller, next.live[caller], s.calls, s.injection);
    } else {
      AnswerKeepsCallsDifferent(s, caller, next.replies[|s.replies|], next);
    }
  }

  lemma NextKeepsCallsDifferent(s: System, e: Event)
    requires CallsDiffer(s)
    ensures CallsDiffer(Next(s, e))
  {
    hide Run, Resume, Program, AfterProbe, AfterFinish, View, ApplyWrites, CallsDiffer;
    match e
    case Begin(caller, op) =>
      if caller !in s.live {
        AttemptKeepsCallsDifferent(s, caller, Fresh(s, s.calls, op, |s.log|), s.calls + 1, s.injection);
      }
    case Advance(caller) =>
      if caller in s.live {
        var a := s.live[caller];
        AttemptKeepsCallsDifferent(
          s, caller, Advanced(a, s.injection), s.calls, s.injection && !a.rest.ProbeThen?);
      }
    case Finish(caller) =>
      if caller in s.live && s.live[caller].rest.Done? { FinishKeepsCallsDifferent(s, caller); }
    case Retry(caller) =>
      if caller in s.live {
        var a := s.live[caller];
        AttemptKeepsCallsDifferent(s, caller, Fresh(s, a.call, a.op, a.invoked), s.calls, s.injection);
      }
    case GiveUp(caller) => FewerLiveCalls(s, caller);
    case ArmInjection => SwitchKeepsCallsDifferent(s);
  }

  lemma {:induction false} CallsStayDifferent(initial: Database, events: seq<Event>)
    ensures CallsDiffer(Execute(initial, events))
  {
    if events != [] {
      CallsStayDifferent(initial, events[..|events| - 1]);
      NextKeepsCallsDifferent(Execute(initial, events[..|events| - 1]), events[|events| - 1]);
    }
  }

  /**
   * However often it is retried, a call is answered at most once and takes effect at most once: two answers belong to
   * two calls, a call that is still tried has had no answer, and each commit is the effect of one answered call.
   */
  lemma EveryCallOnce(initial: Database, events: seq<Event>)
    ensures var s := Execute(initial, events);
            && (forall i, j :: 0 <= i < j < |s.replies| ==> s.replies[i].call != s.replies[j].call)
            && (forall i, caller :: 0 <= i < |s.replies| && caller in s.live ==>
                  s.replies[i].call != s.live[caller].call)
            && CommitsOf(s.replies) == UpTo(|s.log|)
  {
    hide Execute;
    CallsStayDifferent(initial, events);
    EveryScheduleIsStrictlySerial(initial, events);
  }

  /** A call made after some moment takes effect on a state that has all commits made up to then. */
  lemma CallsSeeEarlierCommits(initial: Database, before: seq<Event>, after: seq<Event>, j: nat)
    requires |Execute(initial, before).replies| <= j < |Execute(initial, before + after).replies|
    requires Execute(initial, before + after).replies[j].call >= Execute(initial, before).calls
    ensures var s, t := Execute(initial, before), Execute(initial, before + after);
            && s.log <= t.log && s.replies <= t.replies
            && |s.log| <= t.replies[j].at <= |t.log| && ReplyIsAtomic(initial, t.log, t.replies[j])
  {
    hide Execute, Serial, Atomic;
    EveryScheduleIsStrictlySerial(initial, before + after);
    CallsAreCounted(initial, before);
    RunKeepsSince(initial, before, after);
    assert ReplyIsAtomic(initial, Execute(initial, before + after).log, Execute(initial, before + after).replies[j]);
  }

  /**
   * A call made after another one has been answered takes effect after it: if the first reply was there before
   * the second call began, the instants they took effect are in the same order, strictly if the first one wrote.
   */
  lemma EffectsKeepRealTimeOrder(initial: Database, before: seq<Event>, after: seq<Event>, i: nat, j: nat)
    requires i < |Execute(initial, before).replies|
    requires |Execute(initial, before).replies| <= j < |Execute(initial, before + after).replies|
    requires Execute(initial, before + after).replies[j].call >= Execute(initial, before).calls
    ensures var replies := Execute(initial, before + after).replies;
            i < j && replies[i] == Execute(initial, before).replies[i] && replies[i].at <= replies[j].at
            && (replies[i].wrote ==> replies[i].at < replies[j].at)
  {
    hide Execute, Serial, Atomic;
    var s, t := Execute(initial, before), Execute(initial, before + after);
    EveryScheduleIsStrictlySerial(initial, before);
    CallsSeeEarlierCommits(initial, before, after, j);
    assert ReplyIsAtomic(initial, s.log, s.replies[i]);
  }
}
