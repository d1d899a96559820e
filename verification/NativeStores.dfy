/** The store classes, as the verification script writes them, over one shared database. */
module NativeStores {
  import opened Wrappers

  import opened Documents
  import opened Programs
  import opened StoreContracts
  import opened StoreEffects

  class MongoDatabase {
    var documents: Database

    constructor ()
      ensures documents == map[]
    {
      documents := map[];
    }
  }

  /** The switch a test sets to make a terminal commit fail between its two writes. */
  class FailureInjection {
    var terminalAfterReceiptWrite: bool

    constructor ()
      ensures !terminalAfterReceiptWrite
    {
      terminalAfterReceiptWrite := false;
    }
  }

  /** One transaction: a snapshot of the database and the writes that only this transaction sees. */
  class Session {
    const database: MongoDatabase
    ghost const snapshot: Database
    var pending: Writes

    constructor (database: MongoDatabase)
      ensures this.database == database && snapshot == database.documents && pending == map[]
    {
      this.database := database;
      snapshot := database.documents;
      pending := map[];
    }

    method FindOne(addr: Addr) returns (doc: Option<Doc>)
      requires database.documents == snapshot
      ensures doc == View(snapshot, pending, addr)
    {
      if addr in pending {
        return pending[addr];
      } else if addr in database.documents {
        return Some(database.documents[addr]);
      } else {
        return None;
      }
    }

    method ReplaceOne(addr: Addr, doc: Doc)
      modifies this`pending
      ensures pending == old(pending)[addr := Some(doc)]
    {
      pending := pending[addr := Some(doc)];
    }

    method Commit()
      modifies database
      ensures database.documents == ApplyWrites(old(database.documents), pending)
    {
      database.documents := ApplyWrites(database.documents, pending);
    }
  }

  class MongoProtocolCollectionStore {
    const database: MongoDatabase

    constructor (database: MongoDatabase)
      ensures this.database == database
    {
      this.database := database;
    }

    method GetValue(addr: Addr) returns (outcome: Outcome)
      ensures var e := Atomic(database.documents, Get(addr), false);
              outcome == e.outcome && e.db == database.documents
      ensures outcome
              == if !SafeKey(addr.key) then Thrown(InvalidKey)
                 else Found(if addr in database.documents then Some(database.documents[addr]) else None)
    {
      SingleEffect(database.documents, Get(addr), addr, false);
      if !SafeKey(addr.key) { return Thrown(InvalidKey); }
      return Found(Lookup(database.documents, addr));
    }

    method PutValue(addr: Addr, doc: Doc) returns (outcome: Outcome)
      modifies database
      ensures var e := Atomic(old(database.documents), Put(addr, doc), false);
              outcome == e.outcome && database.documents == e.db
      ensures outcome == if SafeKey(addr.key) then Stored else Thrown(InvalidKey)
      ensures database.documents
              == if SafeKey(addr.key) then old(database.documents)[addr := doc] else old(database.documents)
    {
      SingleEffect(database.documents, Put(addr, doc), addr, false);
      if !SafeKey(addr.key) { return Thrown(InvalidKey); }
      database.documents := database.documents[addr := doc];
      assert database.documents == ApplyWrites(old(database.documents), map[addr := Some(doc)]);
      return Stored;
    }

    method DeleteValue(addr: Addr) returns (outcome: Outcome)
      modifies database
      ensures var e := Atomic(old(database.documents), Delete(addr), false);
              outcome == e.outcome && database.documents == e.db
      ensures outcome
              == if SafeKey(addr.key) then Deleted(addr in old(database.documents)) else Thrown(InvalidKey)
      ensures database.documents
              == if SafeKey(addr.key) then old(database.documents) - {addr} else old(database.documents)
    {
      SingleEffect(database.documents, Delete(addr), addr, false);
      if !SafeKey(addr.key) { return Thrown(InvalidKey); }
      if addr !in database.documents { return Deleted(false); }
      database.documents := database.documents - {addr};
      assert database.documents == ApplyWrites(old(database.documents), map[addr := None]);
      return Deleted(true);
    }

    method CompareAndSet(addr: Addr, expected: Option<Doc>, next: Doc) returns (outcome: Outcome)
      modifies database
      ensures var e := Atomic(old(database.documents), Operation.CompareAndSet(addr, expected, next), false);
              outcome == e.outcome && database.documents == e.db
      ensures SafeKey(addr.key) ==>
                outcome == Swapped(Lookup(old(database.documents), addr) == expected)
                && database.documents
                   == if outcome.swapped then old(database.documents)[addr := next] else old(database.documents)
    {
      SingleEffect(database.documents, Operation.CompareAndSet(addr, expected, next), addr, false);
      if !SafeKey(addr.key) { return Thrown(InvalidKey); }
      var session := new Session(database);
      var current := session.FindOne(addr);
      if current != expected { return Swapped(false); }
      session.ReplaceOne(addr, next);
      session.Commit();
      assert database.documents == old(database.documents)[addr := next];
      return Swapped(true);
    }
  }

  class MongoApprovalDecisionStore {
    const database: MongoDatabase

    constructor (database: MongoDatabase)
      ensures this.database == database
    {
      this.database := database;
    }

    method PutDecision(decision: Decision) returns (outcome: Outcome)
      modifies database
      ensures var e := Atomic(old(database.documents), Operation.PutDecision(decision), false);
              outcome == e.outcome && database.documents == e.db
      ensures outcome == Stored
              <==> SafeKey(decision.decisionId) && InDecisions(decision.decisionId) !in old(database.documents)
    {
      var addr := InDecisions(decision.decisionId);
      SingleEffect(database.documents, Operation.PutDecision(decision), addr, false);
      if !SafeKey(decision.decisionId) { return Thrown(InvalidKey); }
      if addr in database.documents { return Thrown(DuplicateKey); }
      database.documents := database.documents[addr := DecisionDoc(decision)];
      assert database.documents == ApplyWrites(old(database.documents), map[addr := Some(DecisionDoc(decision))]);
      return Stored;
    }

    /** One find-and-update: the decision as it was before it was marked as used, or nothing. */
    method ConsumeApprovedDecision(criteria: Criteria) returns (outcome: Outcome)
      modifies database
      ensures var e := Atomic(old(database.documents), ConsumeDecision(criteria), false);
              outcome == e.outcome && database.documents == e.db
      ensures outcome.Handed? && outcome.decision.Some? <==> MayHandOut(old(database.documents), criteria)
      ensures MayHandOut(old(database.documents), criteria) ==>
                && outcome.decision.value == old(database.documents)[InDecisions(criteria.decisionId)].decision
                && database.documents == old(database.documents)[InDecisions(criteria.decisionId) :=
                     DecisionDoc(outcome.decision.value.(used := true, consumedAt := Some(criteria.now)))]
      ensures !MayHandOut(old(database.documents), criteria) ==> database.documents == old(database.documents)
    {
      HandedOutExactly(database.documents, criteria, false);
      ConsumeEffect(database.documents, criteria, false);
      var addr := InDecisions(criteria.decisionId);
      SingleEffect(database.documents, ConsumeDecision(criteria), addr, false);
      if !SafeKey(criteria.decisionId) { return Thrown(InvalidKey); }
      if addr !in database.documents || !database.documents[addr].DecisionDoc?
         || !Consumable(database.documents[addr].decision, criteria) {
        return Handed(None);
      }
      var before := database.documents[addr].decision;
      var after := before.(used := true, consumedAt := Some(criteria.now));
      database.documents := database.documents[addr := DecisionDoc(after)];
      assert database.documents == ApplyWrites(old(database.documents), map[addr := Some(DecisionDoc(after))]);
      return Handed(Some(before));
    }
  }

  class MongoTerminalTransactionStore {
    const database: MongoDatabase
    const failureInjection: FailureInjection

    constructor (database: MongoDatabase, failureInjection: FailureInjection)
      ensures this.database == database && this.failureInjection == failureInjection
    {
      this.database := database;
      this.failureInjection := failureInjection;
    }

    /** Both documents are stored or neither is; the switch is cleared exactly when the commit got to look at it. */
    method CommitTerminal(t: Terminal) returns (outcome: Outcome)
      modifies database, failureInjection
      ensures var e := Atomic(old(database.documents), Operation.CommitTerminal(t),
                              old(failureInjection.terminalAfterReceiptWrite));
              outcome == e.outcome && database.documents == e.db
      ensures failureInjection.terminalAfterReceiptWrite
              == (old(failureInjection.terminalAfterReceiptWrite)
                  && !TerminalCommits(old(database.documents), t, false))
    {
      TerminalEffect(database.documents, t, failureInjection.terminalAfterReceiptWrite);
      if !WellFormedTerminal(t) { return Thrown(InvalidTransaction); }
      if !SafeKey(t.task.taskId) { return Thrown(InvalidKey); }
      var session := new Session(database);
      var taskAddr, receiptAddr := InTasks(t.task.taskId), InReceipts(t.receipt.receiptId);
      var current := session.FindOne(taskAddr);
      if current.None? || !current.value.TaskDoc? { return RecoveryRequired("TASK_STATE_CHANGED"); }
      var task := current.value.task;
      if TerminalState(task.state) && task.receiptReference == t.task.receiptReference {
        var stored := session.FindOne(InReceipts(task.receiptReference.value));
        return Committed(true, task, stored);
      }
      if task.state !in t.expectedTaskStates { return RecoveryRequired("TASK_STATE_CHANGED"); }
      if !SafeKey(t.receipt.receiptId) { return Thrown(InvalidKey); }
      var existing := session.FindOne(receiptAddr);
      if existing.Some? && existing.value != ReceiptDoc(t.receipt) { return RecoveryRequired("RECEIPT_ID_CONFLICT"); }
      session.ReplaceOne(receiptAddr, ReceiptDoc(t.receipt));
      if failureInjection.terminalAfterReceiptWrite {
        failureInjection.terminalAfterReceiptWrite := false;
        return Thrown(InjectedFailure);
      }
      session.ReplaceOne(taskAddr, TaskDoc(t.task));
      session.Commit();
      return Committed(false, t.task, Some(ReceiptDoc(t.receipt)));
    }
  }

  class MongoInstallGrantTransactionStore {
    const database: MongoDatabase

    constructor (database: MongoDatabase)
      ensures this.database == database
    {
      this.database := database;
    }

    method RedeemInstallGrant(r: Redemption) returns (outcome: Outcome)
      modifies database
      ensures var e := Atomic(old(database.documents), Operation.RedeemInstallGrant(r), false);
              outcome == e.outcome && database.documents == e.db
      ensures outcome.Redeemed? <==> MayRedeem(old(database.documents), r)
      ensures outcome.Redeemed? ==>
                && RedeemedAs(old(database.documents)[InGrants(r.keyHash)].grant, r, outcome.grant, outcome.connection)
                && database.documents
                   == old(database.documents)[InGrants(r.keyHash) := GrantDoc(outcome.grant)]
                        [InConnections(r.connection.connectionId) := ConnectionDoc(outcome.connection)]
      ensures !outcome.Redeemed? ==> outcome.Thrown? && database.documents == old(database.documents)
    {
      ghost var db := database.documents;
      RedemptionEffect(db, r, false);
      RedeemedExactly(db, r, false);
      if MayRedeem(db, r) { RedemptionStores(db, r, false); }
      hide MayRedeem, RedeemedAs;
      if !SafeKey(r.keyHash) { return Thrown(InvalidKey); }
      var session := new Session(database);
      var grantAddr, connectionAddr := InGrants(r.keyHash), InConnections(r.connection.connectionId);
      var document := session.FindOne(grantAddr);
      RunFind(grantAddr, GrantRead(r), db, map[], false);
      if document.None? || !document.value.GrantDoc? { return Thrown(GrantInvalid); }
      var grant := document.value.grant;
      var refusal := GrantRefusal(grant, r);
      if refusal.Some? { return Thrown(refusal.value); }
      var existing := session.FindOne(connectionAddr);
      RunFind(connectionAddr, ConnectionRead(r, grant), db, map[], false);
      if existing.Some? { return Thrown(GrantInvalid); }
      var connection, updated := ConnectionFor(grant, r), RedeemedGrant(grant, r);
      session.ReplaceOne(connectionAddr, ConnectionDoc(connection));
      var recheck := session.FindOne(grantAddr);
      if recheck.None? || !recheck.value.GrantDoc? || recheck.value.grant.status != "active" {
        assert false;
      }
      session.ReplaceOne(grantAddr, GrantDoc(updated));
      session.Commit();
      return Redeemed(updated, connection);
    }
  }
}
