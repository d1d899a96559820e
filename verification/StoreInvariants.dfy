/** What the documents of the stores always satisfy, for callers that keep to the stores' protocol. */
module StoreInvariants {
  import opened Sequences
  import opened Wrappers

  import opened Documents
  import opened Programs
  import opened StoreEffects

  // ---------- Finished documents ----------

  /** Documents the protocol is done with: receipts, connections, redeemed grants, terminal tasks, used decisions. */
  predicate FinalDoc(doc: Doc) {
    match doc
    case TaskDoc(t) => TerminalState(t.state)
    case ReceiptDoc(_) => true
    case GrantDoc(g) => g.status == "redeemed"
    case ConnectionDoc(_) => true
    case DecisionDoc(d) => d.used
  }

  predicate Final(db: Database, addr: Addr) {
    addr in db && FinalDoc(db[addr])
  }

  predicate Typed(addr: Addr, doc: Doc) {
    match addr
    case InTasks(_) => doc.TaskDoc?
    case InReceipts(_) => doc.ReceiptDoc?
    case InGrants(_) => doc.GrantDoc?
    case InConnections(_) => doc.ConnectionDoc?
    case InDecisions(key) => doc.DecisionDoc? && doc.decision.decisionId == key
  }

  // ---------- Grants and connections ----------

  predicate Redeems(db: Database, key: string, id: string) {
    var addr := InGrants(key);
    && addr in db && db[addr].GrantDoc?
    && db[addr].grant.status == "redeemed" && db[addr].grant.connectionId == Some(id)
  }

  ghost predicate SameKeys(x: seq<string>, y: seq<string>, whole: seq<string>) {
    forall key :: key in whole <==> key in x || key in y
  }

  ghost predicate NoKeyInBoth(x: seq<string>, y: seq<string>) {
    forall key :: key in x ==> key !in y
  }

  /** The connection a grant was redeemed for: same organization, and a split of the grant's allowed keys. */
  ghost predicate Splits(g: Grant, c: Connection) {
    && c.organizationScope == g.organizationScope
    && (Truthy(g.workspaceScope) != Absent ==> c.workspaceScope == g.workspaceScope)
    && c.enabledCapabilityKeys != []
    && NoKeyInBoth(c.enabledCapabilityKeys, c.disabledCapabilityKeys)
    && SameKeys(c.enabledCapabilityKeys, c.disabledCapabilityKeys, g.allowedCapabilityKeys)
  }

  ghost predicate GrantsHaveConnections(db: Database) {
    forall key :: InGrants(key) in db && db[InGrants(key)].GrantDoc? && db[InGrants(key)].grant.status == "redeemed" ==>
      var g := db[InGrants(key)].grant;
      && g.connectionId.Some?
      && InConnections(g.connectionId.value) in db
      && db[InConnections(g.connectionId.value)].ConnectionDoc?
      && db[InConnections(g.connectionId.value)].connection.connectionId == g.connectionId.value
      && Splits(g, db[InConnections(g.connectionId.value)].connection)
  }

  ghost predicate ConnectionsHaveGrants(db: Database) {
    forall id :: InConnections(id) in db ==> exists key :: Redeems(db, key, id)
  }

  ghost predicate GrantsShareNoConnection(db: Database) {
    forall key, other, id :: Redeems(db, key, id) && Redeems(db, other, id) ==> key == other
  }

  // ---------- Tasks and receipts ----------

  /** A terminal task and the receipt it names, each naming the other. */
  predicate Receipted(db: Database, key: string, receiptId: string) {
    var task, receipt := InTasks(key), InReceipts(receiptId);
    && task in db && db[task].TaskDoc? && TerminalState(db[task].task.state)
    && db[task].task.taskId == key && db[task].task.receiptReference == Some(receiptId)
    && receipt in db && db[receipt].ReceiptDoc?
    && db[receipt].receipt.receiptId == receiptId && db[receipt].receipt.taskId == key
  }

  ghost predicate TasksHaveReceipts(db: Database) {
    forall key :: InTasks(key) in db && db[InTasks(key)].TaskDoc? && TerminalState(db[InTasks(key)].task.state) ==>
      var t := db[InTasks(key)].task;
      t.receiptReference.Some? && Receipted(db, key, t.receiptReference.value)
  }

  ghost predicate ReceiptsHaveTasks(db: Database) {
    forall id :: InReceipts(id) in db ==>
      db[InReceipts(id)].ReceiptDoc? && Receipted(db, db[InReceipts(id)].receipt.taskId, id)
  }

  ghost predicate WellTyped(db: Database) {
    forall addr :: addr in db ==> Typed(addr, db[addr])
  }

  ghost predicate GrantInvariant(db: Database) {
    GrantsHaveConnections(db) && ConnectionsHaveGrants(db) && GrantsShareNoConnection(db)
  }

  ghost predicate TaskInvariant(db: Database) {
    TasksHaveReceipts(db) && ReceiptsHaveTasks(db)
  }

  ghost predicate Invariant(db: Database) {
    WellTyped(db) && GrantInvariant(db) && TaskInvariant(db)
  }

  // ---------- The protocol callers keep to ----------

  /** A document a caller may store directly: an unfinished task or an unredeemed grant. */
  predicate MayStore(addr: Addr, doc: Doc) {
    !FinalDoc(doc) && ((addr.InTasks? && doc.TaskDoc?) || (addr.InGrants? && doc.GrantDoc?))
  }

  /**
   * Compare-and-set expects an unfinished document or none, a terminal commit expects no terminal state, and
   * the unconditional `put` and `delete` are used only where no finished document is.
   */
  predicate Allowed(db: Database, op: Operation) {
    match op
    case Put(addr, doc) => MayStore(addr, doc) && !Final(db, addr)
    case CompareAndSet(addr, expected, next) => MayStore(addr, next) && (expected.Some? ==> !FinalDoc(expected.value))
    case Delete(addr) => !Final(db, addr) && (addr.InTasks? || addr.InGrants?)
    case CommitTerminal(t) => forall state :: state in t.expectedTaskStates ==> !TerminalState(state)
    case _ => true
  }

  /** Every finished document is still there, unchanged. */
  ghost predicate Kept(db: Database, next: Database) {
    forall addr :: Final(db, addr) ==> addr in next && next[addr] == db[addr]
  }

  // ---------- Every operation keeps the invariant and the finished documents ----------

  lemma GrantsUntouched(db: Database, next: Database)
    requires GrantInvariant(db)
    requires forall addr: Addr :: addr.InGrants? || addr.InConnections? ==> Lookup(next, addr) == Lookup(db, addr)
    ensures GrantInvariant(next)
  {
    forall addr: Addr | addr.InGrants? || addr.InConnections?
      ensures (addr in next <==> addr in db) && (addr in db ==> next[addr] == db[addr])
    {
      assert Lookup(next, addr) == Lookup(db, addr);
    }
    forall key, id
      ensures Redeems(next, key, id) <==> Redeems(db, key, id)
    {
    }
  }

  lemma TasksUntouched(db: Database, next: Database)
    requires TaskInvariant(db)
    requires forall addr: Addr :: addr.InTasks? || addr.InReceipts? ==> Lookup(next, addr) == Lookup(db, addr)
    ensures TaskInvariant(next)
  {
    forall addr: Addr | addr.InTasks? || addr.InReceipts?
      ensures (addr in next <==> addr in db) && (addr in db ==> next[addr] == db[addr])
    {
      assert Lookup(next, addr) == Lookup(db, addr);
    }
    forall key, id
      ensures Receipted(next, key, id) <==> Receipted(db, key, id)
    {
    }
  }

  lemma UnfinishedTaskWrite(db: Database, addr: Addr, doc: Option<Doc>)
    requires Invariant(db) && !Final(db, addr) && addr.InTasks?
    requires doc.Some? ==> doc.value.TaskDoc? && !FinalDoc(doc.value)
    ensures Invariant(ApplyWrites(db, map[addr := doc])) && Kept(db, ApplyWrites(db, map[addr := doc]))
  {
    var next := ApplyWrites(db, map[addr := doc]);
    GrantsUntouched(db, next);
    forall key, id | Receipted(db, key, id)
      ensures Receipted(next, key, id)
    {
    }
  }

  lemma UnfinishedGrantWrite(db: Database, addr: Addr, doc: Option<Doc>)
    requires Invariant(db) && !Final(db, addr) && addr.InGrants?
    requires doc.Some? ==> doc.value.GrantDoc? && !FinalDoc(doc.value)
    ensures Invariant(ApplyWrites(db, map[addr := doc])) && Kept(db, ApplyWrites(db, map[addr := doc]))
  {
    var next := ApplyWrites(db, map[addr := doc]);
    TasksUntouched(db, next);
    forall key, id
      ensures Redeems(next, key, id) <==> Redeems(db, key, id)
    {
    }
    assert forall id :: InConnections(id) in next <==> InConnections(id) in db;
  }

  lemma UnfinishedWrite(db: Database, addr: Addr, doc: Option<Doc>)
    requires Invariant(db) && !Final(db, addr)
    requires addr.InTasks? || addr.InGrants?
    requires doc.Some? ==> MayStore(addr, doc.value)
    ensures Invariant(ApplyWrites(db, map[addr := doc])) && Kept(db, ApplyWrites(db, map[addr := doc]))
  {
    if addr.InTasks? {
      UnfinishedTaskWrite(db, addr, doc);
    } else {
      UnfinishedGrantWrite(db, addr, doc);
    }
  }

  lemma DecisionWrite(db: Database, d: Decision)
    requires Invariant(db) && !Final(db, InDecisions(d.decisionId))
    ensures var next := ApplyWrites(db, map[InDecisions(d.decisionId) := Some(DecisionDoc(d))]);
            Invariant(next) && Kept(db, next)
  {
    var next := ApplyWrites(db, map[InDecisions(d.decisionId) := Some(DecisionDoc(d))]);
    GrantsUntouched(db, next);
    TasksUntouched(db, next);
  }

  lemma RedemptionWrite(db: Database, r: Redemption)
    requires Invariant(db) && Redeemable(db, r)
    ensures var next := ApplyWrites(db, RedemptionWrites(db[InGrants(r.keyHash)].grant, r));
            Invariant(next) && Kept(db, next)
  {
    hide GrantInvariant, TaskInvariant, SafeKey, LinkAddedTo;
    var g := db[InGrants(r.keyHash)].grant;
    var next := ApplyWrites(db, RedemptionWrites(g, r));
    TasksUntouched(db, next);
    RedemptionLinks(db, g, r);
    LinkAdded(db, next, r.keyHash, RedeemedGrant(g, r), ConnectionFor(g, r));
  }

  lemma RedemptionLinks(db: Database, g: Grant, r: Redemption)
    requires Redeemable(db, r) && g == db[InGrants(r.keyHash)].grant
    ensures var next := ApplyWrites(db, RedemptionWrites(g, r));
            LinkAddedTo(db, next, r.keyHash, RedeemedGrant(g, r), ConnectionFor(g, r))
  {
    hide Splits, SafeKey;
    RedemptionSplits(g, r);
  }

  /** A newly redeemed grant and its new connection, side by side with the old ones. */
  ghost predicate LinkAddedTo(db: Database, next: Database, key: string, g: Grant, c: Connection) {
    && !Final(db, InGrants(key)) && InConnections(c.connectionId) !in db
    && g.status == "redeemed" && g.connectionId == Some(c.connectionId) && Splits(g, c)
    && InGrants(key) in next && next[InGrants(key)] == GrantDoc(g)
    && InConnections(c.connectionId) in next && next[InConnections(c.connectionId)] == ConnectionDoc(c)
    && (forall other :: other != key ==> Lookup(next, InGrants(other)) == Lookup(db, InGrants(other)))
    && (forall id :: id != c.connectionId ==> Lookup(next, InConnections(id)) == Lookup(db, InConnections(id)))
  }

  lemma RedeemsAfterLink(db: Database, next: Database, key: string, g: Grant, c: Connection, other: string, id: string)
    requires LinkAddedTo(db, next, key, g, c)
    ensures Redeems(next, other, id) <==> Redeems(db, other, id) || (other == key && id == c.connectionId)
  {
    if other != key { assert Lookup(next, InGrants(other)) == Lookup(db, InGrants(other)); }
  }

  lemma LinkKeepsConnections(db: Database, next: Database, key: string, g: Grant, c: Connection)
    requires GrantInvariant(db) && LinkAddedTo(db, next, key, g, c)
    ensures GrantsHaveConnections(next)
  {
    forall other | InGrants(other) in next && next[InGrants(other)].GrantDoc?
                   && next[InGrants(other)].grant.status == "redeemed" && other != key
      ensures var id := next[InGrants(other)].grant.connectionId;
              id.Some? && InGrants(other) in db && next[InGrants(other)] == db[InGrants(other)]
              && InConnections(id.value) in next && InConnections(id.value) in db
              && next[InConnections(id.value)] == db[InConnections(id.value)]
    {
      assert Lookup(next, InGrants(other)) == Lookup(db, InGrants(other));
      var id := db[InGrants(other)].grant.connectionId.value;
      assert Lookup(next, InConnections(id)) == Lookup(db, InConnections(id));
    }
  }

  lemma LinkAdded(db: Database, next: Database, key: string, g: Grant, c: Connection)
    requires GrantInvariant(db) && LinkAddedTo(db, next, key, g, c)
    ensures GrantInvariant(next)
  {
    LinkKeepsConnections(db, next, key, g, c);
    forall other, id
      ensures Redeems(next, other, id) <==> Redeems(db, other, id) || (other == key && id == c.connectionId)
    {
      RedeemsAfterLink(db, next, key, g, c, other, id);
    }
    forall id | InConnections(id) in next
      ensures exists other :: Redeems(next, other, id)
    {
      if id == c.connectionId {
        assert Redeems(next, key, id);
      } else {
        assert Lookup(next, InConnections(id)) == Lookup(db, InConnections(id));
        var other :| Redeems(db, other, id);
        assert Redeems(next, other, id);
      }
    }
  }

  lemma RedemptionSplits(g: Grant, r: Redemption)
    requires GrantRefusal(g, r) == None
    ensures Splits(RedeemedGrant(g, r), ConnectionFor(g, r))
  {
    var key := r.approvedCapabilityKeys[0];
    assert key in r.approvedCapabilityKeys;
    assert key in Distinct(r.approvedCapabilityKeys);
  }

  /**
   * A redemption splits the grant's allowed keys between the enabled ones, which are the approved ones, each once,
   * and the disabled ones; it keeps the connection's identity and changes nothing else of the grant.
   */
  lemma RedemptionContents(g: Grant, r: Redemption)
    requires GrantRefusal(g, r) == None
    ensures var c := ConnectionFor(g, r);
            && Splits(g, c)
            && (forall key :: key in c.enabledCapabilityKeys <==> key in r.approvedCapabilityKeys)
            && (forall i, j :: 0 <= i < j < |c.enabledCapabilityKeys| ==>
                  c.enabledCapabilityKeys[i] != c.enabledCapabilityKeys[j])
            && c.connectionId == r.connection.connectionId && c.content == r.connection.content
            && RedeemedGrant(g, r).connectionId == Some(c.connectionId)
            && RedeemedGrant(g, r).redeemedAt == Some(r.now.text)
    ensures RedeemedGrant(g, r).(status := g.status, redeemedAt := g.redeemedAt, connectionId := g.connectionId) == g
  {
    RedemptionSplits(g, r);
  }

  lemma TerminalWrite(db: Database, t: Terminal)
    requires Invariant(db) && TerminalCommits(db, t, false) && Allowed(db, CommitTerminal(t))
    ensures Invariant(ApplyWrites(db, TerminalWrites(t))) && Kept(db, ApplyWrites(db, TerminalWrites(t)))
  {
    hide GrantInvariant, TaskInvariant, SafeKey;
    var next := ApplyWrites(db, TerminalWrites(t));
    NewReceipt(db, t);
    GrantsUntouched(db, next);
    ReceiptAdded(db, next, t);
  }

  /** A newly finished task and its new receipt, side by side with the old ones. */
  lemma ReceiptAdded(db: Database, next: Database, t: Terminal)
    requires TaskInvariant(db) && WellFormedTerminal(t)
    requires InReceipts(t.receipt.receiptId) !in db && !Final(db, InTasks(t.task.taskId))
    requires next == ApplyWrites(db, TerminalWrites(t))
    ensures TaskInvariant(next)
  {
    assert Receipted(next, t.task.taskId, t.receipt.receiptId);
    forall key, id | Receipted(db, key, id)
      ensures Receipted(next, key, id)
    {
    }
  }

  /** A commit that writes always stores a new receipt: one already stored belongs to another, finished task. */
  lemma NewReceipt(db: Database, t: Terminal)
    requires Invariant(db) && TerminalCommits(db, t, false) && Allowed(db, CommitTerminal(t))
    ensures InReceipts(t.receipt.receiptId) !in db && !Final(db, InTasks(t.task.taskId))
  {
    assert !TerminalState(db[InTasks(t.task.taskId)].task.state);
    assert ReceiptsHaveTasks(db);
  }

  /** Run alone, an allowed operation keeps the invariant and leaves every finished document as it is. */
  lemma OperationKeepsInvariant(db: Database, op: Operation, armed: bool)
    requires Invariant(db) && Allowed(db, op)
    ensures Invariant(Atomic(db, op, armed).db) && Kept(db, Atomic(db, op, armed).db)
  {
    hide Run, Atomic, ApplyWrites, TerminalAnswer, Redeemable, GrantInvariant, TaskInvariant;
    match op
    case Get(addr) => SingleEffect(db, op, addr, armed);
    case Put(addr, doc) =>
      SingleEffect(db, op, addr, armed);
      UnfinishedWrite(db, addr, Some(doc));
    case Delete(addr) =>
      SingleEffect(db, op, addr, armed);
      UnfinishedWrite(db, addr, None);
    case CompareAndSet(addr, expected, doc) =>
      SingleEffect(db, op, addr, armed);
      if Lookup(db, addr) == expected { UnfinishedWrite(db, addr, Some(doc)); }
    case PutDecision(d) =>
      SingleEffect(db, op, InDecisions(d.decisionId), armed);
      if InDecisions(d.decisionId) !in db { DecisionWrite(db, d); }
    case ConsumeDecision(c) =>
      ConsumeEffect(db, c, armed);
      if Handable(db, c) {
        DecisionWrite(db, db[InDecisions(c.decisionId)].decision.(used := true, consumedAt := Some(c.now)));
      }
    case CommitTerminal(t) =>
      TerminalEffect(db, t, armed);
      if TerminalCommits(db, t, armed) { TerminalWrite(db, t); }
    case RedeemInstallGrant(r) =>
      RedemptionEffect(db, r, armed);
      if Redeemable(db, r) { RedemptionWrite(db, r); }
  }

  // ---------- Counting ----------

  /** Which connection each redeemed grant was redeemed for. */
  ghost function ConnectionsByGrant(db: Database): map<string, string>
    requires Invariant(db)
  {
    map addr: Addr | addr in db.Keys && addr.InGrants? && db[addr].grant.status == "redeemed"
      :: addr.key := db[addr].grant.connectionId.value
  }

  /** Which receipt each terminal task was finished with. */
  ghost function ReceiptsByTask(db: Database): map<string, string>
    requires Invariant(db)
  {
    map addr: Addr | addr in db.Keys && addr.InTasks? && TerminalState(db[addr].task.state)
      :: addr.key := db[addr].task.receiptReference.value
  }

  ghost function Connections(db: Database): set<string> {
    set addr | addr in db.Keys && addr.InConnections? :: addr.key
  }

  ghost function Receipts(db: Database): set<string> {
    set addr | addr in db.Keys && addr.InReceipts? :: addr.key
  }

  ghost predicate OneToOne(m: map<string, string>) {
    forall key, other | key in m && other in m :: m[key] == m[other] ==> key == other
  }

  lemma {:induction false} EquallyMany(m: map<string, string>)
    requires OneToOne(m)
    ensures |m.Keys| == |m.Values|
  {
    if m == map[] {
      assert m.Values == {};
    } else {
      var key :| key in m;
      var smaller := m - {key};
      EquallyMany(smaller);
      assert smaller.Keys == m.Keys - {key};
      assert smaller.Values == m.Values - {m[key]} by {
        forall value | value in m.Values - {m[key]}
          ensures value in smaller.Values
        {
          var other :| other in m && m[other] == value;
          assert other in smaller;
        }
      }
    }
  }

  lemma RedeemedGrantsAreLinked(db: Database)
    requires Invariant(db)
    ensures OneToOne(ConnectionsByGrant(db)) && ConnectionsByGrant(db).Values == Connections(db)
  {
    hide TaskInvariant, Splits;
    var m := ConnectionsByGrant(db);
    forall key | key in m
      ensures Redeems(db, key, m[key]) && m[key] in Connections(db)
    {
      assert InConnections(m[key]) in db.Keys;
    }
    forall id | id in Connections(db)
      ensures id in m.Values
    {
      assert InConnections(id) in db;
      var key :| Redeems(db, key, id);
      assert InGrants(key) in db.Keys && InGrants(key).key in m && m[key] == id;
    }
  }

  /** Redeemed grants and connections correspond one to one through the connection id, so there are equally many. */
  lemma RedeemedGrantsMatchConnections(db: Database)
    requires Invariant(db)
    ensures OneToOne(ConnectionsByGrant(db)) && ConnectionsByGrant(db).Values == Connections(db)
    ensures |ConnectionsByGrant(db)| == |Connections(db)|
  {
    RedeemedGrantsAreLinked(db);
    EquallyMany(ConnectionsByGrant(db));
    assert |ConnectionsByGrant(db).Keys| == |ConnectionsByGrant(db)|;
  }

  lemma TerminalTasksAreReceipted(db: Database)
    requires Invariant(db)
    ensures OneToOne(ReceiptsByTask(db)) && ReceiptsByTask(db).Values == Receipts(db)
  {
    hide GrantInvariant, TerminalState;
    var m := ReceiptsByTask(db);
    forall key | key in m
      ensures Receipted(db, key, m[key]) && m[key] in Receipts(db)
    {
      assert InTasks(key) in db && TerminalState(db[InTasks(key)].task.state);
      assert InReceipts(m[key]) in db.Keys;
    }
    forall id | id in Receipts(db)
      ensures id in m.Values
    {
      assert InReceipts(id) in db;
      var key := db[InReceipts(id)].receipt.taskId;
      assert InTasks(key) in db.Keys && InTasks(key).key in m && m[key] == id;
    }
  }

  /** Terminal tasks and receipts correspond one to one: every receipt is named by exactly one terminal task. */
  lemma TerminalTasksMatchReceipts(db: Database)
    requires Invariant(db)
    ensures OneToOne(ReceiptsByTask(db)) && ReceiptsByTask(db).Values == Receipts(db)
    ensures |ReceiptsByTask(db)| == |Receipts(db)|
  {
    TerminalTasksAreReceipted(db);
    EquallyMany(ReceiptsByTask(db));
    assert |ReceiptsByTask(db).Keys| == |ReceiptsByTask(db)|;
  }

  lemma FinishedTaskAlone(db: Database)
    requires db == map[InTasks("a") := TaskDoc(Task("a", "completed", Some("r"), "")),
                       InReceipts("r") := ReceiptDoc(Receipt("r", "a", ""))]
    ensures Invariant(db)
  {
    assert Receipted(db, "a", "r");
  }

  /** An unfinished task may name the receipt of another task: nothing checks what `put` stores. */
  lemma UnfinishedTaskMayNameAReceipt() returns (db: Database, op: Operation)
    ensures Invariant(db) && Allowed(db, op) && op.Put?
    ensures var next := Atomic(db, op, false).db;
            && Invariant(next) && InReceipts("r") in next
            && InTasks("a") in next && next[InTasks("a")].task.receiptReference == Some("r")
            && InTasks("b") in next && next[InTasks("b")].task.receiptReference == Some("r")
  {
    db := map[InTasks("a") := TaskDoc(Task("a", "completed", Some("r"), "")),
              InReceipts("r") := ReceiptDoc(Receipt("r", "a", ""))];
    op := Put(InTasks("b"), TaskDoc(Task("b", "working", Some("r"), "")));
    FinishedTaskAlone(db);
    hide Run, Atomic, Invariant;
    OperationKeepsInvariant(db, op, false);
    SingleEffect(db, op, InTasks("b"), false);
  }

  // ---------- Workspace scopes ----------

  /** The connection's workspace agrees with the grant's unless a grant without one meets a request that names one. */
  lemma WorkspaceAgreement(g: Grant, r: Redemption)
    ensures Truthy(ConnectionFor(g, r).workspaceScope) == Truthy(g.workspaceScope)
            <==> Truthy(g.workspaceScope) != Absent || Truthy(r.connection.workspaceScope) == Absent
  {
  }

  /** Such a request is accepted, so the scopes of a grant and its connection can differ. */
  lemma WorkspaceCanDisagree() returns (g: Grant, r: Redemption)
    ensures GrantRefusal(g, r) == None
    ensures Truthy(g.workspaceScope) == Absent && Truthy(ConnectionFor(g, r).workspaceScope) == Text("w")
  {
    g := Grant("active", Timestamp("later", Some(2)), "org", Absent, ["read"], None, None, "");
    r := Redemption("hash", Timestamp("now", Some(1)), "org", Absent, ["read"],
                    Connection("c", "org", Text("w"), [], [], ""));
    assert r.approvedCapabilityKeys[0] == "read";
  }
}
