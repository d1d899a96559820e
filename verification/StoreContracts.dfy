/**
 * What each store operation promises, told of the stored documents and the request field by field, and that the
 * operations do exactly that: alone, and under every schedule.
 */
module StoreContracts {
  import opened Sequences
  import opened Wrappers

  import opened Documents
  import opened Programs
  import opened StoreEffects
  import opened SnapshotTransactions

  // ---------- Keys, states, texts and workspaces ----------

  lemma KeysExactly(key: string)
    ensures SafeKey(key) <==> key != "" && |key| <= 1000 && forall i :: 0 <= i < |key| ==> key[i] != '\0'
  {
    if '\0' in key {
      var i :| 0 <= i < |key| && key[i] == '\0';
    }
  }

  lemma TerminalStatesExactly(state: string)
    ensures TerminalState(state)
            <==> state == "completed" || state == "failed" || state == "cancelled" || state == "timed_out"
                 || state == "revoked"
  {
  }

  /** The texts agree up to some place, where the first one ends or has the smaller character. */
  ghost predicate Precedes(x: string, y: string) {
    exists k: nat :: k <= |x| && k < |y| && x[..k] == y[..k] && (k == |x| || x[k] < y[k])
  }

  lemma FirstCharacters(x: string, y: string)
    requires x != "" && y != ""
    ensures Precedes(x, y) ==> x[0] <= y[0]
  {
    forall k: nat | 0 < k <= |x| && k < |y| && x[..k] == y[..k]
      ensures x[0] == y[0]
    {
      assert x[..k][0] == y[..k][0];
    }
  }

  lemma {:induction false} TextBeforeExactly(x: string, y: string)
    ensures TextBefore(x, y) <==> Precedes(x, y)
  {
    if x != "" && y != "" && x[0] == y[0] {
      TextBeforeExactly(x[1..], y[1..]);
      if Precedes(x[1..], y[1..]) {
        var k: nat :| k <= |x[1..]| && k < |y[1..]| && x[1..][..k] == y[1..][..k]
                      && (k == |x[1..]| || x[1..][k] < y[1..][k]);
        assert x[..k + 1] == [x[0]] + x[1..][..k] && y[..k + 1] == [y[0]] + y[1..][..k];
        assert Precedes(x, y);
      }
      if Precedes(x, y) {
        var k: nat :| k <= |x| && k < |y| && x[..k] == y[..k] && (k == |x| || x[k] < y[k]);
        assert k > 0;
        assert x[1..][..k - 1] == x[..k][1..] && y[1..][..k - 1] == y[..k][1..];
        assert Precedes(x[1..], y[1..]);
      }
    } else if y != "" && (x == "" || x[0] < y[0]) {
      assert x[..0] == y[..0];
      assert Precedes(x, y);
    } else if x != "" && y != "" {
      FirstCharacters(x, y);
    }
  }

  /** A field that names no workspace: missing, null, or the empty text. */
  predicate NoWorkspace(field: Field) {
    match field
    case Absent => true
    case Null => true
    case Text(text) => |text| == 0
  }

  predicate SameWorkspace(x: Field, y: Field) {
    if NoWorkspace(x) then NoWorkspace(y) else y.Text? && y.text == x.text
  }

  // ---------- Redeeming an install grant ----------

  predicate GrantStored(db: Database, key: string) {
    InGrants(key) in db && db[InGrants(key)].GrantDoc?
  }

  /** Both times can be read, and the grant's expiry is still to come. */
  predicate InTime(g: Grant, r: Redemption) {
    r.now.instant.Some? && g.expiresAt.instant.Some? && r.now.instant.value < g.expiresAt.instant.value
  }

  predicate InScope(g: Grant, r: Redemption) {
    g.organizationScope == r.organizationScope && SameWorkspace(g.workspaceScope, r.workspaceScope)
  }

  predicate Approved(g: Grant, r: Redemption) {
    |r.approvedCapabilityKeys| > 0
    && forall i :: 0 <= i < |r.approvedCapabilityKeys| ==> r.approvedCapabilityKeys[i] in g.allowedCapabilityKeys
  }

  /** Everything a redemption demands. */
  predicate MayRedeem(db: Database, r: Redemption) {
    && SafeKey(r.keyHash)
    && GrantStored(db, r.keyHash)
    && var g := db[InGrants(r.keyHash)].grant;
    && g.status == "active"
    && InTime(g, r)
    && InScope(g, r)
    && Approved(g, r)
    && SafeKey(r.connection.connectionId)
    && InConnections(r.connection.connectionId) !in db
  }

  lemma CoversExactly(allowed: seq<string>, keys: seq<string>)
    ensures Covers(allowed, keys) <==> forall i :: 0 <= i < |keys| ==> keys[i] in allowed
  {
  }

  /** A redemption goes through exactly when everything it demands is there. */
  lemma RedeemedExactly(db: Database, r: Redemption, armed: bool)
    ensures Atomic(db, RedeemInstallGrant(r), armed).outcome.Redeemed? <==> MayRedeem(db, r)
    ensures Redeemable(db, r) <==> MayRedeem(db, r)
  {
    RedemptionEffect(db, r, armed);
    hide Atomic, SafeKey, RedeemedGrant, ConnectionFor;
    if GrantStored(db, r.keyHash) {
      CoversExactly(db[InGrants(r.keyHash)].grant.allowedCapabilityKeys, r.approvedCapabilityKeys);
    }
  }

  /** Which error each failing check gives when all those before it pass. */
  lemma RedemptionErrors(db: Database, r: Redemption, armed: bool)
    ensures var outcome := Atomic(db, RedeemInstallGrant(r), armed).outcome;
            if !SafeKey(r.keyHash) then outcome == Thrown(InvalidKey)
            else if !GrantStored(db, r.keyHash) then outcome == Thrown(GrantInvalid)
            else
              var g := db[InGrants(r.keyHash)].grant;
              if g.status == "redeemed" then outcome == Thrown(GrantAlreadyRedeemed)
              else if g.status == "revoked" then outcome == Thrown(GrantRevoked)
              else if g.status != "active" then outcome == Thrown(GrantInvalid)
              else if !InTime(g, r) then outcome == Thrown(GrantExpired)
              else if !InScope(g, r) then outcome == Thrown(ScopeMismatch)
              else if !Approved(g, r) then outcome == Thrown(AuthorizationDenied)
              else if !SafeKey(r.connection.connectionId) then outcome == Thrown(InvalidKey)
              else if InConnections(r.connection.connectionId) in db then outcome == Thrown(GrantInvalid)
              else outcome.Redeemed?
  {
    RedemptionEffect(db, r, armed);
    hide Atomic, SafeKey, RedeemedGrant, ConnectionFor;
    if GrantStored(db, r.keyHash) {
      CoversExactly(db[InGrants(r.keyHash)].grant.allowedCapabilityKeys, r.approvedCapabilityKeys);
    }
  }

  /** The grant and the connection a redemption stores and answers with, field by field. */
  ghost predicate RedeemedAs(g: Grant, r: Redemption, after: Grant, c: Connection) {
    && after.status == "redeemed" && after.redeemedAt == Some(r.now.text)
    && after.connectionId == Some(r.connection.connectionId)
    && after.expiresAt == g.expiresAt && after.organizationScope == g.organizationScope
    && after.workspaceScope == g.workspaceScope && after.allowedCapabilityKeys == g.allowedCapabilityKeys
    && after.content == g.content
    && c.connectionId == r.connection.connectionId && c.content == r.connection.content
    && c.organizationScope == g.organizationScope
    && c.workspaceScope == (if NoWorkspace(g.workspaceScope) then r.connection.workspaceScope else g.workspaceScope)
    && ListedOnce(c.enabledCapabilityKeys, r.approvedCapabilityKeys)
    && LeftOver(c.disabledCapabilityKeys, g.allowedCapabilityKeys, r.approvedCapabilityKeys)
  }

  /** The stores after a redemption: the connection is new, the grant is redeemed, nothing else has changed. */
  lemma RedemptionStores(db: Database, r: Redemption, armed: bool)
    requires MayRedeem(db, r)
    ensures var e := Atomic(db, RedeemInstallGrant(r), armed);
            && e.outcome.Redeemed?
            && RedeemedAs(db[InGrants(r.keyHash)].grant, r, e.outcome.grant, e.outcome.connection)
            && e.db == db[InGrants(r.keyHash) := GrantDoc(e.outcome.grant)]
                         [InConnections(r.connection.connectionId) := ConnectionDoc(e.outcome.connection)]
  {
    RedeemedExactly(db, r, armed);
    RedemptionEffect(db, r, armed);
    hide Atomic, SafeKey, GrantRefusal;
    var g := db[InGrants(r.keyHash)].grant;
    DistinctListsOnce(r.approvedCapabilityKeys);
    WithoutLeavesOver(g.allowedCapabilityKeys, r.approvedCapabilityKeys, Distinct(r.approvedCapabilityKeys));
  }

  // ---------- Handing out an approval decision ----------

  predicate DecisionStored(db: Database, key: string) {
    InDecisions(key) in db && db[InDecisions(key)].DecisionDoc?
  }

  /** Everything the hand-out of a decision demands. */
  predicate MayHandOut(db: Database, c: Criteria) {
    && SafeKey(c.decisionId)
    && DecisionStored(db, c.decisionId)
    && FitsEveryField(db[InDecisions(c.decisionId)].decision, c)
  }

  predicate FitsEveryField(d: Decision, c: Criteria) {
    && d.used == false
    && d.verdict == "approved"
    && c.invocationId == d.invocationId
    && c.actionKey == d.actionKey
    && c.approvalActionDigest == d.approvalActionDigest
    && c.organizationScope == d.organizationScope
    && TextBefore(c.now, d.expiresAt)
    && (if NoWorkspace(c.workspaceScope) then d.workspaceScope.Absent?
        else d.workspaceScope.Text? && d.workspaceScope.text == c.workspaceScope.text)
  }

  /** A decision is handed out exactly when it fits the criteria in every field; it is then used, else all stays. */
  lemma HandedOutExactly(db: Database, c: Criteria, armed: bool)
    ensures var e := Atomic(db, ConsumeDecision(c), armed);
            if MayHandOut(db, c)
            then var d := db[InDecisions(c.decisionId)].decision;
                 && e.outcome == Handed(Some(d))
                 && e.db == db[InDecisions(c.decisionId) := DecisionDoc(d.(used := true, consumedAt := Some(c.now)))]
            else e.db == db && e.outcome == if SafeKey(c.decisionId) then Handed(None) else Thrown(InvalidKey)
    ensures Handable(db, c) <==> MayHandOut(db, c)
  {
    ConsumeEffect(db, c, armed);
    hide Atomic, SafeKey, TextBefore;
  }

  // ---------- Committing a terminal task ----------

  predicate TaskStored(db: Database, key: string) {
    InTasks(key) in db && db[InTasks(key)].TaskDoc?
  }

  /** A task and a receipt that belong together, the task in a terminal state. */
  predicate BelongTogether(task: Task, receipt: Receipt) {
    && |task.taskId| > 0 && |receipt.receiptId| > 0
    && receipt.taskId == task.taskId && task.receiptReference.Some? && task.receiptReference.value == receipt.receiptId
    && TerminalState(task.state)
  }

  /** The call was made before: its task has finished with its receipt. */
  predicate FinishedBefore(db: Database, t: Terminal) {
    && TaskStored(db, t.task.taskId)
    && TerminalState(db[InTasks(t.task.taskId)].task.state)
    && db[InTasks(t.task.taskId)].task.receiptReference == Some(t.receipt.receiptId)
  }

  /** Another receipt is stored under the identifier. */
  predicate ReceiptTaken(db: Database, receipt: Receipt) {
    InReceipts(receipt.receiptId) in db && db[InReceipts(receipt.receiptId)] != ReceiptDoc(receipt)
  }

  /** The answer and the stores after every terminal commit, by the first check that fails. */
  lemma CommittedExactly(db: Database, t: Terminal, armed: bool)
    ensures var e := Atomic(db, CommitTerminal(t), armed);
            var task, receipt := InTasks(t.task.taskId), InReceipts(t.receipt.receiptId);
            if !BelongTogether(t.task, t.receipt) then e.outcome == Thrown(InvalidTransaction) && e.db == db
            else if !SafeKey(t.task.taskId) then e.outcome == Thrown(InvalidKey) && e.db == db
            else if FinishedBefore(db, t)
              then e.outcome == Committed(true, db[task].task, Lookup(db, receipt)) && e.db == db
            else if !TaskStored(db, t.task.taskId) || db[task].task.state !in t.expectedTaskStates
              then e.outcome == RecoveryRequired("TASK_STATE_CHANGED") && e.db == db
            else if !SafeKey(t.receipt.receiptId) then e.outcome == Thrown(InvalidKey) && e.db == db
            else if ReceiptTaken(db, t.receipt)
              then e.outcome == RecoveryRequired("RECEIPT_ID_CONFLICT") && e.db == db
            else if armed then e.outcome == Thrown(InjectedFailure) && e.db == db
            else && e.outcome == Committed(false, t.task, Some(ReceiptDoc(t.receipt)))
                 && e.db == db[receipt := ReceiptDoc(t.receipt)][task := TaskDoc(t.task)]
  {
    TerminalEffect(db, t, armed);
    hide Atomic, SafeKey, TerminalState;
  }

  // ---------- Under every schedule ----------

  /** The stores at the instant a call took effect. */
  ghost function StoresAt(initial: Database, s: System, r: Reply): Database
    requires r.at <= |s.log|
  {
    Serial(initial, s.log[..r.at])
  }

  lemma ReplyIsAnswer(initial: Database, events: seq<Event>, i: nat)
    requires i < |Execute(initial, events).replies|
    ensures var s := Execute(initial, events);
            var r := s.replies[i];
            r.at <= |s.log| && r.outcome == Atomic(StoresAt(initial, s, r), r.op, r.armed).outcome
  {
    hide Execute, Serial, Atomic;
    EveryScheduleIsStrictlySerial(initial, events);
    var s := Execute(initial, events);
    assert ReplyIsAtomic(initial, s.log, s.replies[i]);
  }

  /** In every schedule, a caller is told that a grant is redeemed exactly when it demanded what was there to be had. */
  lemma EveryRedemptionExactly(initial: Database, events: seq<Event>, i: nat)
    requires i < |Execute(initial, events).replies| && Execute(initial, events).replies[i].op.RedeemInstallGrant?
    ensures var s := Execute(initial, events);
            var r := s.replies[i];
            r.at <= |s.log| && (r.outcome.Redeemed? <==> MayRedeem(StoresAt(initial, s, r), r.op.redemption))
  {
    hide Execute, Atomic, StoresAt, MayRedeem;
    ReplyIsAnswer(initial, events, i);
    var s := Execute(initial, events);
    var r := s.replies[i];
    RedeemedExactly(StoresAt(initial, s, r), r.op.redemption, r.armed);
  }

  /** In every schedule, a decision is handed out exactly when the one stored at that instant fits in every field. */
  lemma EveryHandOutExactly(initial: Database, events: seq<Event>, i: nat)
    requires i < |Execute(initial, events).replies| && Execute(initial, events).replies[i].op.ConsumeDecision?
    ensures var s := Execute(initial, events);
            var r := s.replies[i];
            && r.at <= |s.log|
            && var db := StoresAt(initial, s, r);
            && (r.outcome.Handed? && r.outcome.decision.Some? <==> MayHandOut(db, r.op.criteria))
            && (MayHandOut(db, r.op.criteria) ==>
                  r.outcome.decision.value == db[InDecisions(r.op.criteria.decisionId)].decision)
  {
    hide Execute, Atomic, StoresAt, FitsEveryField, SafeKey, Handable;
    ReplyIsAnswer(initial, events, i);
    var s := Execute(initial, events);
    var r := s.replies[i];
    HandedOutExactly(StoresAt(initial, s, r), r.op.criteria, r.armed);
  }
}
