/**
 * Each store operation as a program over documents, with one program point for every awaited read,
 * and the run of a program against one snapshot.
 */
module Programs {
  import opened Sequences
  import opened Wrappers

  import opened Documents

  /** Pending writes of one transaction: a document to store, or None for a removal. */
  type Writes = map<Addr, Option<Doc>>

  datatype Statement =
    | FindThen(addr: Addr, point: Point)
    | ProbeThen(terminal: Terminal)
    | WriteThen(addr: Addr, doc: Option<Doc>, rest: Statement)
    | Done(outcome: Outcome)

  /** Where an operation waits for a document. */
  datatype Point =
    | GetRead
    | DeleteRead(addr: Addr)
    | SwapRead(addr: Addr, expected: Option<Doc>, next: Doc)
    | InsertRead(decision: Decision)
    | ConsumeRead(criteria: Criteria)
    | TaskRead(terminal: Terminal)
    | ReplayRead(task: Task)
    | ReceiptRead(terminal: Terminal)
    | GrantRead(redemption: Redemption)
    | ConnectionRead(redemption: Redemption, grant: Grant)
    | GrantRecheck(keyHash: string, grant: Grant, connection: Connection)

  predicate WellFormedTerminal(t: Terminal) {
    && t.task.taskId != ""
    && t.receipt.receiptId != ""
    && t.receipt.taskId == t.task.taskId
    && t.task.receiptReference == Some(t.receipt.receiptId)
    && TerminalState(t.task.state)
  }

  function Program(op: Operation): Statement {
    match op
    case Get(addr) =>
      if !SafeKey(addr.key) then Done(Thrown(InvalidKey)) else FindThen(addr, GetRead)
    case Put(addr, doc) =>
      if !SafeKey(addr.key) then Done(Thrown(InvalidKey)) else WriteThen(addr, Some(doc), Done(Stored))
    case Delete(addr) =>
      if !SafeKey(addr.key) then Done(Thrown(InvalidKey)) else FindThen(addr, DeleteRead(addr))
    case CompareAndSet(addr, expected, next) =>
      if !SafeKey(addr.key) then Done(Thrown(InvalidKey)) else FindThen(addr, SwapRead(addr, expected, next))
    case PutDecision(d) =>
      if !SafeKey(d.decisionId) then Done(Thrown(InvalidKey))
      else FindThen(InDecisions(d.decisionId), InsertRead(d))
    case ConsumeDecision(c) =>
      if !SafeKey(c.decisionId) then Done(Thrown(InvalidKey))
      else FindThen(InDecisions(c.decisionId), ConsumeRead(c))
    case CommitTerminal(t) =>
      if !WellFormedTerminal(t) then Done(Thrown(InvalidTransaction))
      else if !SafeKey(t.task.taskId) then Done(Thrown(InvalidKey))
      else FindThen(InTasks(t.task.taskId), TaskRead(t))
    case RedeemInstallGrant(r) =>
      if !SafeKey(r.keyHash) then Done(Thrown(InvalidKey))
      else FindThen(InGrants(r.keyHash), GrantRead(r))
  }

  /** The selection of `consumeApprovedDecision`: every bound field, an unused approval, not expired. */
  predicate Consumable(d: Decision, c: Criteria) {
    && !d.used
    && d.verdict == "approved"
    && d.invocationId == c.invocationId
    && d.actionKey == c.actionKey
    && d.approvalActionDigest == c.approvalActionDigest
    && d.organizationScope == c.organizationScope
    && TextBefore(c.now, d.expiresAt)
    && d.workspaceScope == Truthy(c.workspaceScope)
  }

  /** Why a grant cannot be redeemed, in the order the checks are made; None when it can. */
  function GrantRefusal(g: Grant, r: Redemption): Option<Error> {
    if g.status == "redeemed" then Some(GrantAlreadyRedeemed)
    else if g.status == "revoked" then Some(GrantRevoked)
    else if g.status != "active" then Some(GrantInvalid)
    else if r.now.instant.None? || g.expiresAt.instant.None? || g.expiresAt.instant.value <= r.now.instant.value
      then Some(GrantExpired)
    else if g.organizationScope != r.organizationScope || Truthy(g.workspaceScope) != Truthy(r.workspaceScope)
      then Some(ScopeMismatch)
    else if r.approvedCapabilityKeys == [] || !Covers(g.allowedCapabilityKeys, r.approvedCapabilityKeys)
      then Some(AuthorizationDenied)
    else if !SafeKey(r.connection.connectionId) then Some(InvalidKey)
    else None
  }

  function ConnectionFor(g: Grant, r: Redemption): Connection {
    var enabled := Distinct(r.approvedCapabilityKeys);
    r.connection.(
      organizationScope := g.organizationScope,
      workspaceScope := if Truthy(g.workspaceScope) != Absent then g.workspaceScope else r.connection.workspaceScope,
      enabledCapabilityKeys := enabled,
      disabledCapabilityKeys := Without(g.allowedCapabilityKeys, enabled))
  }

  function RedeemedGrant(g: Grant, r: Redemption): Grant {
    g.(status := "redeemed", redeemedAt := Some(r.now.text), connectionId := Some(r.connection.connectionId))
  }

  function Resume(point: Point, seen: Option<Doc>): (next: Statement)
    ensures PointsLeft(next) <= PointRank(point)
  {
    match point
    case GetRead => Done(Found(seen))
    case DeleteRead(addr) =>
      if seen.None? then Done(Deleted(false)) else WriteThen(addr, None, Done(Deleted(true)))
    case SwapRead(addr, expected, next) =>
      if seen != expected then Done(Swapped(false)) else WriteThen(addr, Some(next), Done(Swapped(true)))
    case InsertRead(d) =>
      if seen.Some? then Done(Thrown(DuplicateKey))
      else WriteThen(InDecisions(d.decisionId), Some(DecisionDoc(d)), Done(Stored))
    case ConsumeRead(c) =>
      if seen.Some? && seen.value.DecisionDoc? && Consumable(seen.value.decision, c) then
        var d := seen.value.decision;
        WriteThen(InDecisions(c.decisionId), Some(DecisionDoc(d.(used := true, consumedAt := Some(c.now)))),
                  Done(Handed(Some(d))))
      else Done(Handed(None))
    case TaskRead(t) =>
      if seen.None? || !seen.value.TaskDoc? then Done(RecoveryRequired("TASK_STATE_CHANGED"))
      else
        var current := seen.value.task;
        if TerminalState(current.state) && current.receiptReference == t.task.receiptReference
           && current.receiptReference.Some?
        then FindThen(InReceipts(current.receiptReference.value), ReplayRead(current))
        else if current.state !in t.expectedTaskStates then Done(RecoveryRequired("TASK_STATE_CHANGED"))
        else if !SafeKey(t.receipt.receiptId) then Done(Thrown(InvalidKey))
        else FindThen(InReceipts(t.receipt.receiptId), ReceiptRead(t))
    case ReplayRead(task) => Done(Committed(true, task, seen))
    case ReceiptRead(t) =>
      if seen.Some? && seen.value != ReceiptDoc(t.receipt) then Done(RecoveryRequired("RECEIPT_ID_CONFLICT"))
      else WriteThen(InReceipts(t.receipt.receiptId), Some(ReceiptDoc(t.receipt)), ProbeThen(t))
    case GrantRead(r) =>
      if seen.None? || !seen.value.GrantDoc? then Done(Thrown(GrantInvalid))
      else
        var refusal := GrantRefusal(seen.value.grant, r);
        if refusal.Some? then Done(Thrown(refusal.value))
        else FindThen(InConnections(r.connection.connectionId), ConnectionRead(r, seen.value.grant))
    case ConnectionRead(r, g) =>
      if seen.Some? then Done(Thrown(GrantInvalid))
      else
        var connection := ConnectionFor(g, r);
        WriteThen(InConnections(r.connection.connectionId), Some(ConnectionDoc(connection)),
                  FindThen(InGrants(r.keyHash), GrantRecheck(r.keyHash, RedeemedGrant(g, r), connection)))
    case GrantRecheck(keyHash, g, connection) =>
      if seen.Some? && seen.value.GrantDoc? && seen.value.grant.status == "active"
      then WriteThen(InGrants(keyHash), Some(GrantDoc(g)), Done(Redeemed(g, connection)))
      else Done(Thrown(GrantAlreadyRedeemed))
  }

  /** The failure-injection switch, read after the receipt write of a terminal commit. */
  function AfterProbe(t: Terminal, armed: bool): (next: Statement)
    ensures PointsLeft(next) == 0
  {
    if armed then Done(Thrown(InjectedFailure))
    else WriteThen(InTasks(t.task.taskId), Some(TaskDoc(t.task)),
                   Done(Committed(false, t.task, Some(ReceiptDoc(t.receipt)))))
  }

  function PointRank(point: Point): nat {
    match point
    case TaskRead(_) => 3
    case ReceiptRead(_) => 2
    case GrantRead(_) => 2
    case ConnectionRead(_, _) => 1
    case _ => 0
  }

  function PointsLeft(s: Statement): nat {
    match s
    case FindThen(_, point) => PointRank(point) + 1
    case ProbeThen(_) => 1
    case WriteThen(_, _, rest) => PointsLeft(rest)
    case Done(_) => 0
  }

  /** What a transaction sees: its own pending writes over its snapshot. */
  function View(db: Database, pending: Writes, addr: Addr): Option<Doc> {
    if addr in pending then pending[addr] else Lookup(db, addr)
  }

  /** A finished run: its outcome, its pending writes, and the snapshot documents it looked at. */
  datatype Execution = Execution(outcome: Outcome, writes: Writes, observed: set<Addr>)

  function Run(s: Statement, db: Database, pending: Writes, armed: bool): Execution
    decreases PointsLeft(s), s
  {
    match s
    case FindThen(addr, point) =>
      var rest := Run(Resume(point, View(db, pending, addr)), db, pending, armed);
      if addr in pending then rest else rest.(observed := rest.observed + {addr})
    case ProbeThen(t) => Run(AfterProbe(t, armed), db, pending, armed)
    case WriteThen(addr, doc, rest) => Run(rest, db, pending[addr := doc], armed)
    case Done(outcome) => Execution(outcome, pending, {})
  }

  function ApplyWrites(db: Database, writes: Writes): Database {
    map addr | addr in db.Keys + writes.Keys && (addr in writes ==> writes[addr].Some?)
      :: if addr in writes then writes[addr].value else db[addr]
  }

  /** What an operation does when nothing runs beside it. */
  datatype Effect = Effect(outcome: Outcome, writes: Writes, db: Database)

  function Atomic(db: Database, op: Operation, armed: bool): Effect {
    var run := Run(Program(op), db, map[], armed);
    if run.outcome.Thrown? then Effect(run.outcome, map[], db)
    else Effect(run.outcome, run.writes, ApplyWrites(db, run.writes))
  }

  /** Two databases that agree on everything a run looked at give the same run. */
  lemma {:induction false} RunAgrees(s: Statement, db: Database, other: Database, pending: Writes, armed: bool)
    requires forall addr :: addr in Run(s, db, pending, armed).observed ==> Lookup(db, addr) == Lookup(other, addr)
    ensures Run(s, other, pending, armed) == Run(s, db, pending, armed)
    decreases PointsLeft(s), s
  {
    match s
    case FindThen(addr, point) =>
      var rest := Run(Resume(point, View(db, pending, addr)), db, pending, armed);
      assert rest.observed <= Run(s, db, pending, armed).observed;
      if addr !in pending {
        assert addr in Run(s, db, pending, armed).observed;
      }
      RunAgrees(Resume(point, View(db, pending, addr)), db, other, pending, armed);
    case ProbeThen(t) => RunAgrees(AfterProbe(t, armed), db, other, pending, armed);
    case WriteThen(addr, doc, rest) => RunAgrees(rest, db, other, pending[addr := doc], armed);
    case Done(_) =>
  }

  /** Two runs that end the same way, whatever they looked at. */
  ghost predicate SameEnd(x: Execution, y: Execution) {
    x.outcome == y.outcome && x.writes == y.writes
  }

  lemma RunFindStep(addr: Addr, point: Point, db: Database, pending: Writes, armed: bool)
    ensures SameEnd(Run(FindThen(addr, point), db, pending, armed),
                    Run(Resume(point, View(db, pending, addr)), db, pending, armed))
  {
  }

  /** One read from the snapshot, unfolded. */
  lemma RunFind(addr: Addr, point: Point, db: Database, pending: Writes, armed: bool)
    requires addr !in pending
    ensures var rest := Run(Resume(point, Lookup(db, addr)), db, pending, armed);
            Run(FindThen(addr, point), db, pending, armed)
              == Execution(rest.outcome, rest.writes, rest.observed + {addr})
  {
  }

  /** One buffered write, unfolded. */
  lemma RunWrite(addr: Addr, doc: Option<Doc>, rest: Statement, db: Database, pending: Writes, armed: bool)
    ensures Run(WriteThen(addr, doc, rest), db, pending, armed) == Run(rest, db, pending[addr := doc], armed)
  {
  }

  /** One look at the failure-injection switch, unfolded. */
  lemma RunProbe(t: Terminal, db: Database, pending: Writes, armed: bool)
    ensures Run(ProbeThen(t), db, pending, armed) == Run(AfterProbe(t, armed), db, pending, armed)
  {
  }

  /** The end of a program: at most one more write and nothing more to read. */
  predicate Ending(s: Statement) {
    s.Done? || (s.WriteThen? && s.rest.Done?)
  }

  lemma RunEnding(s: Statement, db: Database, pending: Writes, armed: bool)
    requires Ending(s)
    ensures Run(s, db, pending, armed)
              == if s.Done? then Execution(s.outcome, pending, {})
                 else Execution(s.rest.outcome, pending[s.addr := s.doc], {})
  {
    if s.WriteThen? {
      assert Run(s.rest, db, pending[s.addr := s.doc], armed)
          == Execution(s.rest.outcome, pending[s.addr := s.doc], {});
    }
  }

  ghost predicate ReadsAreWritten(run: Execution) {
    !run.outcome.Thrown? && run.writes != map[] ==> run.observed <= run.writes.Keys
  }

  /** Every document that decides a committing, writing run is also written by it. */
  lemma DecidingReadsAreWritten(db: Database, op: Operation, armed: bool)
    ensures ReadsAreWritten(Run(Program(op), db, map[], armed))
  {
    var start := Program(op);
    match start
    case Done(_) =>
    case WriteThen(_, _, _) => RunEnding(start, db, map[], armed);
    case FindThen(addr, point) =>
      RunFind(addr, point, db, map[], armed);
      match op
      case CommitTerminal(t) => TerminalReads(db, t, armed);
      case RedeemInstallGrant(r) => RedemptionReads(db, r, armed);
      case _ => RunEnding(Resume(point, Lookup(db, addr)), db, map[], armed);
  }

  lemma TerminalReads(db: Database, t: Terminal, armed: bool)
    requires WellFormedTerminal(t) && SafeKey(t.task.taskId)
    ensures ReadsAreWritten(Run(Program(CommitTerminal(t)), db, map[], armed))
  {
    var taskAddr, receiptAddr := InTasks(t.task.taskId), InReceipts(t.receipt.receiptId);
    RunFind(taskAddr, TaskRead(t), db, map[], armed);
    var first := Resume(TaskRead(t), Lookup(db, taskAddr));
    if first.FindThen? {
      RunFind(first.addr, first.point, db, map[], armed);
      var second := Resume(first.point, Lookup(db, first.addr));
      if second.WriteThen? {
        var pending: Writes := map[receiptAddr := Some(ReceiptDoc(t.receipt))];
        RunWrite(receiptAddr, second.doc, second.rest, db, map[], armed);
        RunProbe(t, db, pending, armed);
        RunEnding(AfterProbe(t, armed), db, pending, armed);
      }
    }
  }

  lemma RedemptionReads(db: Database, r: Redemption, armed: bool)
    requires SafeKey(r.keyHash)
    ensures ReadsAreWritten(Run(Program(RedeemInstallGrant(r)), db, map[], armed))
  {
    hide Run, GrantRefusal, ConnectionFor, RedeemedGrant, SafeKey;
    var grantAddr, connectionAddr := InGrants(r.keyHash), InConnections(r.connection.connectionId);
    RunFind(grantAddr, GrantRead(r), db, map[], armed);
    var first := Resume(GrantRead(r), Lookup(db, grantAddr));
    if first.Done? {
      RunEnding(first, db, map[], armed);
    } else {
      RunFind(connectionAddr, first.point, db, map[], armed);
      var second := Resume(first.point, Lookup(db, connectionAddr));
      if second.Done? {
        RunEnding(second, db, map[], armed);
      } else {
        var pending: Writes := map[connectionAddr := second.doc];
        RunWrite(connectionAddr, second.doc, second.rest, db, map[], armed);
        RunFind(grantAddr, second.rest.point, db, pending, armed);
        RunEnding(Resume(second.rest.point, Lookup(db, grantAddr)), db, pending, armed);
      }
    }
  }
}
