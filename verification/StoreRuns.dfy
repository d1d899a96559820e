/** What the stores guarantee over whole concurrent runs of callers that keep to the protocol. */
module StoreRuns {
  import opened Wrappers

  import opened Documents
  import opened Programs
  import opened StoreContracts
  import opened StoreEffects
  import opened StoreInvariants
  import opened SnapshotTransactions

  /** Every committed operation was allowed on the state it committed on. */
  ghost predicate Disciplined(initial: Database, log: seq<Commit>) {
    forall i :: 0 <= i < |log| ==> Allowed(Serial(initial, log[..i]), log[i].op)
  }

  ghost predicate DisciplinedRun(initial: Database, events: seq<Event>) {
    Invariant(initial) && Disciplined(initial, Execute(initial, events).log)
  }

  lemma SerialStep(initial: Database, log: seq<Commit>, i: nat)
    requires i < |log|
    ensures Serial(initial, log[..i + 1]) == Atomic(Serial(initial, log[..i]), log[i].op, log[i].armed).db
  {
    assert log[..i + 1][..i] == log[..i] && log[..i + 1][i] == log[i];
  }

  lemma CommitKeepsInvariant(initial: Database, log: seq<Commit>, i: nat)
    requires i < |log| && Invariant(Serial(initial, log[..i])) && Allowed(Serial(initial, log[..i]), log[i].op)
    ensures Invariant(Serial(initial, log[..i + 1])) && Kept(Serial(initial, log[..i]), Serial(initial, log[..i + 1]))
  {
    SerialStep(initial, log, i);
    OperationKeepsInvariant(Serial(initial, log[..i]), log[i].op, log[i].armed);
  }

  lemma {:induction false} PrefixKeepsInvariant(initial: Database, log: seq<Commit>, i: nat)
    requires Invariant(initial) && Disciplined(initial, log) && i <= |log|
    ensures Invariant(Serial(initial, log[..i]))
  {
    if i > 0 {
      PrefixKeepsInvariant(initial, log, i - 1);
      CommitKeepsInvariant(initial, log, i - 1);
    }
  }

  lemma KeptIsTransitive(x: Database, y: Database, z: Database)
    requires Kept(x, y) && Kept(y, z)
    ensures Kept(x, z)
  {
  }

  lemma KeptIsReflexive(db: Database)
    ensures Kept(db, db)
  {
  }

  /** A finished document, once there, is in every later state, unchanged. */
  lemma {:induction false} FinishedDocumentsStay(initial: Database, log: seq<Commit>, i: nat, j: nat)
    requires Invariant(initial) && Disciplined(initial, log) && i <= j <= |log|
    ensures Kept(Serial(initial, log[..i]), Serial(initial, log[..j]))
    decreases j
  {
    hide Serial, Atomic, Invariant, Allowed, Kept;
    if i == j {
      KeptIsReflexive(Serial(initial, log[..i]));
    } else {
      FinishedDocumentsStay(initial, log, i, j - 1);
      PrefixKeepsInvariant(initial, log, j - 1);
      CommitKeepsInvariant(initial, log, j - 1);
      KeptIsTransitive(Serial(initial, log[..i]), Serial(initial, log[..j - 1]), Serial(initial, log[..j]));
    }
  }

  /**
   * Under every schedule the stores satisfy the invariant, so redeemed grants and connections, and terminal tasks
   * and receipts, stay in step.
   */
  lemma EveryScheduleKeepsInvariant(initial: Database, events: seq<Event>)
    requires DisciplinedRun(initial, events)
    ensures var db := Execute(initial, events).db;
            && Invariant(db)
            && |ConnectionsByGrant(db)| == |Connections(db)|
            && |ReceiptsByTask(db)| == |Receipts(db)|
  {
    var s := Execute(initial, events);
    EveryScheduleIsStrictlySerial(initial, events);
    assert s.log[..|s.log|] == s.log;
    PrefixKeepsInvariant(initial, s.log, |s.log|);
    RedeemedGrantsMatchConnections(s.db);
    TerminalTasksMatchReceipts(s.db);
  }

  lemma EmptyStoresSatisfyInvariant()
    ensures Invariant(map[])
  {
  }

  /** Stores that start out empty satisfy it for all callers that keep to the protocol. */
  lemma StoresStartedEmptyKeepInvariant(events: seq<Event>)
    requires Disciplined(map[], Execute(map[], events).log)
    ensures DisciplinedRun(map[], events) && Invariant(Execute(map[], events).db)
  {
    EmptyStoresSatisfyInvariant();
    EveryScheduleKeepsInvariant(map[], events);
  }

  // ---------- At most once ----------

  /** The answers after which a document is finished, and that document. */
  predicate Finishing(op: Operation, outcome: Outcome) {
    match op
    case ConsumeDecision(_) => outcome.Handed? && outcome.decision.Some?
    case RedeemInstallGrant(_) => outcome.Redeemed?
    case CommitTerminal(_) => outcome.Committed? && !outcome.idempotent
    case _ => false
  }

  function Finished(op: Operation): Addr
    requires op.ConsumeDecision? || op.RedeemInstallGrant? || op.CommitTerminal?
  {
    match op
    case ConsumeDecision(c) => InDecisions(c.decisionId)
    case RedeemInstallGrant(r) => InGrants(r.keyHash)
    case CommitTerminal(t) => InTasks(t.task.taskId)
  }

  lemma FinishingWrites(db: Database, op: Operation, armed: bool)
    requires Finishing(op, Atomic(db, op, armed).outcome)
    ensures Atomic(db, op, armed).writes != map[]
  {
    match op
    case ConsumeDecision(c) => ConsumeEffect(db, c, armed);
    case RedeemInstallGrant(r) => RedemptionEffect(db, r, armed);
    case CommitTerminal(t) => TerminalEffect(db, t, armed);
  }

  /** An operation that finishes its document found it unfinished and leaves it finished. */
  lemma FinishingFinishes(db: Database, op: Operation, armed: bool)
    requires Allowed(db, op) && Finishing(op, Atomic(db, op, armed).outcome)
    ensures !Final(db, Finished(op)) && Final(Atomic(db, op, armed).db, Finished(op)) && SafeKey(Finished(op).key)
  {
    match op
    case ConsumeDecision(c) => ConsumeEffect(db, c, armed);
    case RedeemInstallGrant(r) => RedemptionEffect(db, r, armed);
    case CommitTerminal(t) => TerminalEffect(db, t, armed);
  }

  /** The commits of two writing replies come in the order of the replies. */
  lemma {:induction false} CommitsInReplyOrder(replies: seq<Reply>, n: nat, i: nat, j: nat)
    requires CommitsOf(replies) == UpTo(n) && i < j < |replies| && replies[i].wrote && replies[j].wrote
    ensures replies[i].at < replies[j].at < n
    decreases |replies|
  {
    var front, last := replies[..|replies| - 1], replies[|replies| - 1];
    if last.wrote {
      assert n > 0 && CommitsOf(replies)[..|CommitsOf(replies)| - 1] == CommitsOf(front);
      assert UpTo(n)[..|UpTo(n)| - 1] == UpTo(n - 1);
      if j == |replies| - 1 {
        CommitBelow(front, n - 1, i);
      } else {
        CommitsInReplyOrder(front, n - 1, i, j);
      }
    } else {
      CommitsInReplyOrder(front, n, i, j);
    }
  }

  lemma {:induction false} CommitBelow(replies: seq<Reply>, n: nat, i: nat)
    requires CommitsOf(replies) == UpTo(n) && i < |replies| && replies[i].wrote
    ensures replies[i].at < n
    decreases |replies|
  {
    var front, last := replies[..|replies| - 1], replies[|replies| - 1];
    if last.wrote {
      assert n > 0 && CommitsOf(replies)[..|CommitsOf(replies)| - 1] == CommitsOf(front);
      assert UpTo(n)[..|UpTo(n)| - 1] == UpTo(n - 1);
      if i < |replies| - 1 { CommitBelow(front, n - 1, i); }
    } else {
      CommitBelow(front, n, i);
    }
  }

  /**
   * In every schedule, no two calls are told that they finished the same document: an approval decision is
   * handed out once, a grant redeemed once, a task finished once, however many callers race and retry.
   */
  lemma FinishedAtMostOnce(initial: Database, events: seq<Event>, i: nat, j: nat)
    requires DisciplinedRun(initial, events)
    requires var replies := Execute(initial, events).replies;
             i < j < |replies| && Finishing(replies[i].op, replies[i].outcome)
             && Finishing(replies[j].op, replies[j].outcome)
    ensures var replies := Execute(initial, events).replies;
            Finished(replies[i].op) != Finished(replies[j].op)
  {
    var s := Execute(initial, events);
    EveryScheduleIsStrictlySerial(initial, events);
    FinishingReplyWrote(initial, s, i);
    FinishingReplyWrote(initial, s, j);
    hide Execute, Serial, Atomic, Invariant, Disciplined;
    CommitsInReplyOrder(s.replies, |s.log|, i, j);
    FinishedDocumentsStay(initial, s.log, s.replies[i].at + 1, s.replies[j].at);
  }

  lemma FinishingReplyWrote(initial: Database, s: System, i: nat)
    requires StrictlySerial(initial, s) && Invariant(initial) && Disciplined(initial, s.log)
    requires i < |s.replies| && Finishing(s.replies[i].op, s.replies[i].outcome)
    ensures var r := s.replies[i];
            && r.wrote && r.at < |s.log|
            && !Final(Serial(initial, s.log[..r.at]), Finished(r.op))
            && Final(Serial(initial, s.log[..r.at + 1]), Finished(r.op))
            && SafeKey(Finished(r.op).key)
  {
    hide Serial, Atomic, Invariant, Allowed, Final, Finishing, Finished, SafeKey;
    var r := s.replies[i];
    assert ReplyIsAtomic(initial, s.log, r);
    var db := Serial(initial, s.log[..r.at]);
    if r.wrote {
      SerialStep(initial, s.log, r.at);
      FinishingFinishes(db, r.op, r.armed);
    } else {
      FinishingWrites(db, r.op, r.armed);
    }
  }

  /**
   * In every schedule, a decision that is handed out stood in the stores, unused, at the instant the call took effect,
   * was approved and not expired, and fits the criteria in every bound field. This needs no discipline of callers.
   */
  lemma HandedOnlyWhenConsumable(initial: Database, events: seq<Event>, i: nat)
    requires var replies := Execute(initial, events).replies;
             && i < |replies| && replies[i].op.ConsumeDecision?
             && replies[i].outcome.Handed? && replies[i].outcome.decision.Some?
    ensures var s := Execute(initial, events);
            var r := s.replies[i];
            && r.at <= |s.log| && r.wrote
            && FitsEveryField(r.outcome.decision.value, r.op.criteria)
            && Lookup(Serial(initial, s.log[..r.at]), InDecisions(r.op.criteria.decisionId))
               == Some(DecisionDoc(r.outcome.decision.value))
  {
    hide Execute, Serial, Atomic, Consumable, FitsEveryField;
    var s := Execute(initial, events);
    var r := s.replies[i];
    EveryScheduleIsStrictlySerial(initial, events);
    assert ReplyIsAtomic(initial, s.log, r);
    ConsumeEffect(Serial(initial, s.log[..r.at]), r.op.criteria, r.armed);
    HandedOutExactly(Serial(initial, s.log[..r.at]), r.op.criteria, r.armed);
  }

  // ---------- Replay ----------

  /** A logged terminal commit left its task and its receipt in the stores, both finished. */
  lemma TerminalCommitStored(initial: Database, log: seq<Commit>, i: nat)
    requires i < |log| && CommitIsAtomic(initial, log, i) && log[i].op.CommitTerminal?
    ensures var t := log[i].op.terminal;
            var after := Serial(initial, log[..i + 1]);
            && WellFormedTerminal(t) && SafeKey(t.task.taskId)
            && Lookup(after, InTasks(t.task.taskId)) == Some(TaskDoc(t.task))
            && Lookup(after, InReceipts(t.receipt.receiptId)) == Some(ReceiptDoc(t.receipt))
  {
    TerminalEffect(Serial(initial, log[..i]), log[i].op.terminal, log[i].armed);
    SerialStep(initial, log, i);
  }

  /**
   * After a terminal commit, the same call made again at any later time changes nothing and answers with the
   * very task and receipt of the first call, whatever was committed in between.
   */
  lemma CommittedTerminalReplays(initial: Database, log: seq<Commit>, i: nat, j: nat, armed: bool)
    requires Invariant(initial) && Disciplined(initial, log) && LogIsAtomic(initial, log)
    requires i < j <= |log| && log[i].op.CommitTerminal?
    ensures var t := log[i].op.terminal;
            var db := Serial(initial, log[..j]);
            && Atomic(db, CommitTerminal(t), armed)
               == Effect(Committed(true, t.task, Some(ReceiptDoc(t.receipt))), map[], db)
            && Lookup(db, InTasks(t.task.taskId)) == Some(TaskDoc(t.task))
            && Lookup(db, InReceipts(t.receipt.receiptId)) == Some(ReceiptDoc(t.receipt))
  {
    var t := log[i].op.terminal;
    TerminalCommitStored(initial, log, i);
    FinishedDocumentsStay(initial, log, i + 1, j);
    var after, db := Serial(initial, log[..i + 1]), Serial(initial, log[..j]);
    assert Final(after, InTasks(t.task.taskId)) && Final(after, InReceipts(t.receipt.receiptId));
    TerminalEffect(db, t, armed);
  }

  /**
   * In every schedule, a caller that was told its terminal commit went through and asks again, or anyone asking
   * the same afterwards, is answered with the same task and receipt, and nothing is written.
   */
  lemma RetriedTerminalIsReplayed(initial: Database, before: seq<Event>, after: seq<Event>, i: nat, j: nat)
    requires DisciplinedRun(initial, before + after)
    requires i < |Execute(initial, before).replies|
    requires |Execute(initial, before).replies| <= j < |Execute(initial, before + after).replies|
    requires var r := Execute(initial, before).replies[i];
             var again := Execute(initial, before + after).replies[j];
             && Finishing(r.op, r.outcome) && r.op.CommitTerminal?
             && again.op == r.op && again.call >= Execute(initial, before).calls
    ensures var again := Execute(initial, before + after).replies[j];
            var t := again.op.terminal;
            again.outcome == Committed(true, t.task, Some(ReceiptDoc(t.receipt))) && !again.wrote
  {
    var s := Execute(initial, before + after);
    var again := s.replies[j];
    hide Execute, Serial, Atomic, Invariant, Disciplined;
    EffectsKeepRealTimeOrder(initial, before, after, i, j);
    EveryScheduleIsStrictlySerial(initial, before + after);
    FinishingReplyWrote(initial, s, i);
    assert ReplyIsAtomic(initial, s.log, s.replies[i]) && ReplyIsAtomic(initial, s.log, again);
    assert again.wrote ==> CommitIsAtomic(initial, s.log, again.at);
    CommittedTerminalReplays(initial, s.log, s.replies[i].at, again.at, again.armed);
  }

  /** The answer to asking for a decision or a grant that is finished. */
  function TooLate(op: Operation): Outcome {
    if op.ConsumeDecision? then Handed(None) else Thrown(GrantAlreadyRedeemed)
  }

  lemma FinishedIsTooLate(db: Database, op: Operation, armed: bool)
    requires WellTyped(db) && (op.ConsumeDecision? || op.RedeemInstallGrant?)
    requires Final(db, Finished(op)) && SafeKey(Finished(op).key)
    ensures Atomic(db, op, armed).outcome == TooLate(op) && Atomic(db, op, armed).writes == map[]
  {
    assert Typed(Finished(op), db[Finished(op)]);
    match op
    case ConsumeDecision(c) => ConsumeEffect(db, c, armed);
    case RedeemInstallGrant(r) => RedemptionEffect(db, r, armed);
  }

  /**
   * In every schedule, whoever asks for a decision or a grant after somebody was told to have got it is told that
   * it is too late, whatever else the request says, and nothing is written.
   */
  lemma LatecomersAreTurnedAway(initial: Database, before: seq<Event>, after: seq<Event>, i: nat, j: nat)
    requires DisciplinedRun(initial, before + after)
    requires i < |Execute(initial, before).replies|
    requires |Execute(initial, before).replies| <= j < |Execute(initial, before + after).replies|
    requires var r := Execute(initial, before).replies[i];
             var late := Execute(initial, before + after).replies[j];
             && Finishing(r.op, r.outcome) && (late.op.ConsumeDecision? || late.op.RedeemInstallGrant?)
             && Finished(late.op) == Finished(r.op) && late.call >= Execute(initial, before).calls
    ensures var late := Execute(initial, before + after).replies[j];
            late.outcome == TooLate(late.op) && !late.wrote
  {
    var s := Execute(initial, before + after);
    hide Execute, Serial, Atomic, Disciplined, GrantInvariant, TaskInvariant, WellTyped;
    var r, late := s.replies[i], s.replies[j];
    EffectsKeepRealTimeOrder(initial, before, after, i, j);
    EveryScheduleIsStrictlySerial(initial, before + after);
    FinishingReplyWrote(initial, s, i);
    assert ReplyIsAtomic(initial, s.log, late);
    assert late.wrote ==> CommitIsAtomic(initial, s.log, late.at);
    FinishedDocumentsStay(initial, s.log, r.at + 1, late.at);
    PrefixKeepsInvariant(initial, s.log, late.at);
    FinishedIsTooLate(Serial(initial, s.log[..late.at]), late.op, late.armed);
  }

  // ---------- Expiry ----------

  lemma {:induction false} TextBeforeIsTransitive(x: string, y: string, z: string)
    requires TextBefore(x, y) && TextBefore(y, z)
    ensures TextBefore(x, z)
  {
    if x != "" && x[0] == y[0] == z[0] { TextBeforeIsTransitive(x[1..], y[1..], z[1..]); }
  }

  /** Of a stored decision nothing but its use ever changes. */
  ghost predicate DecisionsKept(db: Database, next: Database) {
    forall id :: InDecisions(id) in db && db[InDecisions(id)].DecisionDoc? ==>
      && InDecisions(id) in next && next[InDecisions(id)].DecisionDoc?
      && SameDecision(db[InDecisions(id)].decision, next[InDecisions(id)].decision)
  }

  predicate SameDecision(d: Decision, e: Decision) {
    e.(used := d.used, consumedAt := d.consumedAt) == d
  }

  lemma DecisionsUntouched(db: Database, addr: Addr, doc: Option<Doc>)
    requires !addr.InDecisions?
    ensures DecisionsKept(db, ApplyWrites(db, map[addr := doc]))
  {
  }

  lemma OperationKeepsDecisions(db: Database, op: Operation, armed: bool)
    requires Allowed(db, op)
    ensures DecisionsKept(db, Atomic(db, op, armed).db)
  {
    hide Atomic, DecisionsKept, ApplyWrites, TerminalCommits, Redeemable, TerminalAnswer, RedemptionAnswer;
    SameDecisions(db);
    match op
    case Get(addr) => SingleEffect(db, op, addr, armed);
    case Put(addr, doc) =>
      SingleEffect(db, op, addr, armed);
      DecisionsUntouched(db, addr, Some(doc));
    case Delete(addr) =>
      SingleEffect(db, op, addr, armed);
      DecisionsUntouched(db, addr, None);
    case CompareAndSet(addr, expected, doc) =>
      SingleEffect(db, op, addr, armed);
      DecisionsUntouched(db, addr, Some(doc));
    case PutDecision(d) => InsertionKeepsDecisions(db, d, armed);
    case ConsumeDecision(c) => ConsumptionKeepsDecisions(db, c, armed);
    case CommitTerminal(t) =>
      TerminalEffect(db, t, armed);
      TerminalWritesKeepDecisions(db, t);
    case RedeemInstallGrant(r) =>
      RedemptionEffect(db, r, armed);
      if Redeemable(db, r) { RedemptionWritesKeepDecisions(db, RedeemableGrant(db, r), r); }
  }

  lemma SameDecisions(db: Database)
    ensures DecisionsKept(db, db)
  {
  }

  function RedeemableGrant(db: Database, r: Redemption): Grant
    requires Redeemable(db, r)
  {
    db[InGrants(r.keyHash)].grant
  }

  lemma TerminalWritesKeepDecisions(db: Database, t: Terminal)
    ensures DecisionsKept(db, ApplyWrites(db, TerminalWrites(t)))
  {
  }

  lemma RedemptionWritesKeepDecisions(db: Database, g: Grant, r: Redemption)
    ensures DecisionsKept(db, ApplyWrites(db, RedemptionWrites(g, r)))
  {
  }

  lemma InsertionKeepsDecisions(db: Database, d: Decision, armed: bool)
    ensures DecisionsKept(db, Atomic(db, PutDecision(d), armed).db)
  {
    SingleEffect(db, PutDecision(d), InDecisions(d.decisionId), armed);
  }

  lemma ConsumptionKeepsDecisions(db: Database, c: Criteria, armed: bool)
    ensures DecisionsKept(db, Atomic(db, ConsumeDecision(c), armed).db)
  {
    ConsumeEffect(db, c, armed);
  }

  /** A stored decision is there at every later point of the log, the same but for its use. */
  lemma {:induction false} DecisionsStay(initial: Database, log: seq<Commit>, i: nat, j: nat)
    requires Disciplined(initial, log) && i <= j <= |log|
    ensures DecisionsKept(Serial(initial, log[..i]), Serial(initial, log[..j]))
    decreases j
  {
    hide Serial, Atomic, Allowed, DecisionsKept;
    if i == j {
      SameDecisions(Serial(initial, log[..i]));
    } else {
      DecisionsStay(initial, log, i, j - 1);
      SerialStep(initial, log, j - 1);
      OperationKeepsDecisions(Serial(initial, log[..j - 1]), log[j - 1].op, log[j - 1].armed);
      DecisionsKeptIsTransitive(
        Serial(initial, log[..i]), Serial(initial, log[..j - 1]), Serial(initial, log[..j]));
    }
  }

  lemma DecisionsKeptIsTransitive(x: Database, y: Database, z: Database)
    requires DecisionsKept(x, y) && DecisionsKept(y, z)
    ensures DecisionsKept(x, z)
  {
  }

  /** A stored decision whose time is up. */
  predicate Expired(db: Database, id: string, now: string) {
    && InDecisions(id) in db && db[InDecisions(id)].DecisionDoc?
    && !TextBefore(now, db[InDecisions(id)].decision.expiresAt)
  }

  lemma StaysExpired(db: Database, later: Database, id: string, now: string)
    requires Expired(db, id, now) && DecisionsKept(db, later)
    ensures Expired(later, id, now)
  {
    hide TextBefore;
  }

  lemma ExpiredIsNotHanded(db: Database, c: Criteria, now: string, armed: bool)
    requires Expired(db, c.decisionId, now) && SafeKey(c.decisionId) && (now == c.now || TextBefore(now, c.now))
    ensures Atomic(db, ConsumeDecision(c), armed).outcome == Handed(None)
    ensures Atomic(db, ConsumeDecision(c), armed).writes == map[]
  {
    ConsumeEffect(db, c, armed);
    var expiry := db[InDecisions(c.decisionId)].decision.expiresAt;
    if now != c.now && TextBefore(c.now, expiry) { TextBeforeIsTransitive(now, c.now, expiry); }
  }

  /**
   * In every schedule, a decision stored at some moment and expired at some time is not handed out by any call made
   * after that moment whose clock shows that time or a later one, whatever is committed in between.
   */
  lemma ExpiryIsFinal(initial: Database, before: seq<Event>, after: seq<Event>, j: nat, now: string)
    requires DisciplinedRun(initial, before + after)
    requires |Execute(initial, before).replies| <= j < |Execute(initial, before + after).replies|
    requires var late := Execute(initial, before + after).replies[j];
             && late.op.ConsumeDecision? && SafeKey(late.op.criteria.decisionId)
             && late.call >= Execute(initial, before).calls
             && Expired(Execute(initial, before).db, late.op.criteria.decisionId, now)
             && (now == late.op.criteria.now || TextBefore(now, late.op.criteria.now))
    ensures var late := Execute(initial, before + after).replies[j];
            late.outcome == Handed(None) && !late.wrote
  {
    hide Execute, Serial, Atomic, Invariant, Disciplined, DecisionsKept, TextBefore;
    var s, t := Execute(initial, before), Execute(initial, before + after);
    var late := t.replies[j];
    EveryScheduleIsStrictlySerial(initial, before);
    EveryScheduleIsStrictlySerial(initial, before + after);
    CallsSeeEarlierCommits(initial, before, after, j);
    assert late.wrote ==> CommitIsAtomic(initial, t.log, late.at);
    assert t.log[..|s.log|] == s.log;
    DecisionsStay(initial, t.log, |s.log|, late.at);
    StaysExpired(s.db, Serial(initial, t.log[..late.at]), late.op.criteria.decisionId, now);
    ExpiredIsNotHanded(Serial(initial, t.log[..late.at]), late.op.criteria, now, late.armed);
  }
}
