/** What each store operation does when it runs alone: exactly when it writes, and what. */
module StoreEffects {
  import opened Wrappers

  import opened Documents
  import opened Programs

  /** The stored task is terminal and names the same receipt. */
  predicate AlreadyFinished(db: Database, t: Terminal) {
    var addr := InTasks(t.task.taskId);
    && addr in db && db[addr].TaskDoc?
    && TerminalState(db[addr].task.state) && db[addr].task.receiptReference == t.task.receiptReference
  }

  /** A stored task the commit may finish: in an expected state, and not already finished with this receipt. */
  predicate Finishable(db: Database, t: Terminal) {
    var addr := InTasks(t.task.taskId);
    addr in db && db[addr].TaskDoc? && db[addr].task.state in t.expectedTaskStates && !AlreadyFinished(db, t)
  }

  /** The receipt identifier is free, or already holds this very receipt. */
  predicate ReceiptFits(db: Database, t: Terminal) {
    var addr := InReceipts(t.receipt.receiptId);
    addr in db ==> db[addr] == ReceiptDoc(t.receipt)
  }

  predicate TerminalCommits(db: Database, t: Terminal, armed: bool) {
    && WellFormedTerminal(t)
    && SafeKey(t.task.taskId)
    && SafeKey(t.receipt.receiptId)
    && Finishable(db, t)
    && ReceiptFits(db, t)
    && !armed
  }

  function TerminalWrites(t: Terminal): Writes {
    map[InReceipts(t.receipt.receiptId) := Some(ReceiptDoc(t.receipt)), InTasks(t.task.taskId) := Some(TaskDoc(t.task))]
  }

  /** The answer to every terminal commit. */
  function TerminalAnswer(db: Database, t: Terminal, armed: bool): Outcome {
    var taskAddr, receiptAddr := InTasks(t.task.taskId), InReceipts(t.receipt.receiptId);
    if !WellFormedTerminal(t) then Thrown(InvalidTransaction)
    else if !SafeKey(t.task.taskId) then Thrown(InvalidKey)
    else if taskAddr !in db || !db[taskAddr].TaskDoc? then RecoveryRequired("TASK_STATE_CHANGED")
    else if AlreadyFinished(db, t) then Committed(true, db[taskAddr].task, Lookup(db, receiptAddr))
    else if db[taskAddr].task.state !in t.expectedTaskStates then RecoveryRequired("TASK_STATE_CHANGED")
    else if !SafeKey(t.receipt.receiptId) then Thrown(InvalidKey)
    else if !ReceiptFits(db, t) then RecoveryRequired("RECEIPT_ID_CONFLICT")
    else if armed then Thrown(InjectedFailure)
    else Committed(false, t.task, Some(ReceiptDoc(t.receipt)))
  }

  /** A terminal commit writes both documents or neither; it writes exactly when nothing stands in the way. */
  lemma TerminalEffect(db: Database, t: Terminal, armed: bool)
    ensures var e := Atomic(db, CommitTerminal(t), armed);
            && e.outcome == TerminalAnswer(db, t, armed)
            && if TerminalCommits(db, t, armed)
               then e.writes == TerminalWrites(t) && e.db == ApplyWrites(db, TerminalWrites(t))
               else e.writes == map[] && e.db == db
  {
    hide Run, SafeKey;
    assert ApplyWrites(db, map[]) == db;
    if !WellFormedTerminal(t) || !SafeKey(t.task.taskId) {
      RunEnding(Program(CommitTerminal(t)), db, map[], armed);
    } else {
      var taskAddr, receiptAddr := InTasks(t.task.taskId), InReceipts(t.receipt.receiptId);
      RunFind(taskAddr, TaskRead(t), db, map[], armed);
      var first := Resume(TaskRead(t), Lookup(db, taskAddr));
      if first.Done? {
        RunEnding(first, db, map[], armed);
      } else {
        RunFind(first.addr, first.point, db, map[], armed);
        var second := Resume(first.point, Lookup(db, first.addr));
        if second.Done? {
          RunEnding(second, db, map[], armed);
        } else {
          var pending: Writes := map[receiptAddr := Some(ReceiptDoc(t.receipt))];
          RunWrite(receiptAddr, second.doc, second.rest, db, map[], armed);
          RunProbe(t, db, pending, armed);
          RunEnding(AfterProbe(t, armed), db, pending, armed);
        }
      }
    }
  }

  predicate Redeemable(db: Database, r: Redemption) {
    var addr := InGrants(r.keyHash);
    && SafeKey(r.keyHash)
    && addr in db
    && db[addr].GrantDoc?
    && GrantRefusal(db[addr].grant, r) == None
    && InConnections(r.connection.connectionId) !in db
  }

  function RedemptionWrites(g: Grant, r: Redemption): Writes {
    map[InConnections(r.connection.connectionId) := Some(ConnectionDoc(ConnectionFor(g, r))),
        InGrants(r.keyHash) := Some(GrantDoc(RedeemedGrant(g, r)))]
  }

  /** The answer to every redemption. */
  function RedemptionAnswer(db: Database, r: Redemption): Outcome {
    var addr := InGrants(r.keyHash);
    if !SafeKey(r.keyHash) then Thrown(InvalidKey)
    else if addr !in db || !db[addr].GrantDoc? then Thrown(GrantInvalid)
    else
      var g := db[addr].grant;
      var refusal := GrantRefusal(g, r);
      if refusal.Some? then Thrown(refusal.value)
      else if InConnections(r.connection.connectionId) in db then Thrown(GrantInvalid)
      else Redeemed(RedeemedGrant(g, r), ConnectionFor(g, r))
  }

  /** A redemption stores the connection and marks the grant, both or neither; the recheck of the grant never fails. */
  lemma RedemptionEffect(db: Database, r: Redemption, armed: bool)
    ensures var e := Atomic(db, RedeemInstallGrant(r), armed);
            && e.outcome == RedemptionAnswer(db, r)
            && if Redeemable(db, r)
               then var writes := RedemptionWrites(db[InGrants(r.keyHash)].grant, r);
                    e.writes == writes && e.db == ApplyWrites(db, writes)
               else e.writes == map[] && e.db == db
  {
    hide Run, ConnectionFor, RedeemedGrant, SafeKey;
    assert ApplyWrites(db, map[]) == db;
    if !SafeKey(r.keyHash) {
      RunEnding(Program(RedeemInstallGrant(r)), db, map[], armed);
    } else {
      var grantAddr, connectionAddr := InGrants(r.keyHash), InConnections(r.connection.connectionId);
      RunFind(grantAddr, GrantRead(r), db, map[], armed);
      var first := Resume(GrantRead(r), Lookup(db, grantAddr));
      if first.Done? {
        RunEnding(first, db, map[], armed);
      } else {
        RunFind(connectionAddr, first.point, db, map[], armed);
        var second := Resume(first.point, Lookup(db, connectionAddr));
        if second.Done? {
          RunEnding(second, db, map[], armed);
        } else {
          var pending: Writes := map[connectionAddr := second.doc];
          RunWrite(connectionAddr, second.doc, second.rest, db, map[], armed);
          RunFind(grantAddr, second.rest.point, db, pending, armed);
          RunEnding(Resume(second.rest.point, Lookup(db, grantAddr)), db, pending, armed);
        }
      }
    }
  }

  predicate Handable(db: Database, c: Criteria) {
    var addr := InDecisions(c.decisionId);
    SafeKey(c.decisionId) && addr in db && db[addr].DecisionDoc? && Consumable(db[addr].decision, c)
  }

  /** A decision is handed out, as it was, exactly when it fits the criteria, and is then marked as used. */
  lemma ConsumeEffect(db: Database, c: Criteria, armed: bool)
    ensures var e := Atomic(db, ConsumeDecision(c), armed);
            if Handable(db, c)
            then var d := db[InDecisions(c.decisionId)].decision;
                 var writes: Writes :=
                   map[InDecisions(c.decisionId) := Some(DecisionDoc(d.(used := true, consumedAt := Some(c.now))))];
                 e == Effect(Handed(Some(d)), writes, ApplyWrites(db, writes))
            else e == Effect(if SafeKey(c.decisionId) then Handed(None) else Thrown(InvalidKey), map[], db)
  {
    SingleEffect(db, ConsumeDecision(c), InDecisions(c.decisionId), armed);
  }

  /** The operations that touch one document: what they read is that document, what they write is at most it. */
  lemma SingleEffect(db: Database, op: Operation, addr: Addr, armed: bool)
    requires match op
             case PutDecision(d) => addr == InDecisions(d.decisionId)
             case ConsumeDecision(c) => addr == InDecisions(c.decisionId)
             case CommitTerminal(_) => false
             case RedeemInstallGrant(_) => false
             case _ => addr == op.addr
    ensures var e := Atomic(db, op, armed);
            var start := Program(op);
            var ending := if start.FindThen? then Resume(start.point, Lookup(db, addr)) else start;
            && Ending(ending)
            && (ending.Done? ==> e == Effect(ending.outcome, map[], db))
            && (ending.WriteThen? ==>
                  && ending.addr == addr
                  && e == Effect(ending.rest.outcome, map[addr := ending.doc],
                                 ApplyWrites(db, map[addr := ending.doc])))
  {
    var start := Program(op);
    assert ApplyWrites(db, map[]) == db;
    if start.FindThen? {
      RunFind(addr, start.point, db, map[], armed);
      RunEnding(Resume(start.point, Lookup(db, addr)), db, map[], armed);
    } else {
      RunEnding(start, db, map[], armed);
    }
  }
}
