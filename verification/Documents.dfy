/** The documents the Native Agent stores keep, and the operations callers may ask for. */
module Documents {
  import opened Wrappers

  /** A document field that may be missing, stored as null, or hold text. */
  datatype Field = Absent | Null | Text(text: string)

  /** `value || undefined`: null and the empty text read as missing. */
  function Truthy(field: Field): Field {
    if field.Text? && field.text != "" then field else Absent
  }

  /** A time stamp as text, with the instant `Date.parse` finds in it (None when it finds none). */
  datatype Timestamp = Timestamp(text: string, instant: Option<int>)

  datatype Task = Task(taskId: string, state: string, receiptReference: Option<string>, content: string)

  datatype Receipt = Receipt(receiptId: string, taskId: string, content: string)

  datatype Grant = Grant(
    status: string,
    expiresAt: Timestamp,
    organizationScope: string,
    workspaceScope: Field,
    allowedCapabilityKeys: seq<string>,
    redeemedAt: Option<string>,
    connectionId: Option<string>,
    content: string)

  datatype Connection = Connection(
    connectionId: string,
    organizationScope: string,
    workspaceScope: Field,
    enabledCapabilityKeys: seq<string>,
    disabledCapabilityKeys: seq<string>,
    content: string)

  datatype Decision = Decision(
    decisionId: string,
    verdict: string,
    invocationId: string,
    actionKey: string,
    approvalActionDigest: string,
    organizationScope: string,
    workspaceScope: Field,
    expiresAt: string,
    used: bool,
    consumedAt: Option<string>)

  datatype Doc =
    | TaskDoc(task: Task)
    | ReceiptDoc(receipt: Receipt)
    | GrantDoc(grant: Grant)
    | ConnectionDoc(connection: Connection)
    | DecisionDoc(decision: Decision)

  /** A collection and the `_id` of a document in it. */
  datatype Addr =
    | InTasks(key: string)
    | InReceipts(key: string)
    | InGrants(key: string)
    | InConnections(key: string)
    | InDecisions(key: string)

  type Database = map<Addr, Doc>

  function Lookup(db: Database, addr: Addr): Option<Doc> {
    if addr in db then Some(db[addr]) else None
  }

  const MAXIMUM_KEY_LENGTH := 1000

  predicate SafeKey(key: string) {
    0 < |key| <= MAXIMUM_KEY_LENGTH && '\0' !in key
  }

  predicate TerminalState(state: string) {
    state in {"completed", "failed", "cancelled", "timed_out", "revoked"}
  }

  /** Text order, as the database compares two ISO time stamps. */
  predicate TextBefore(x: string, y: string) {
    if y == "" then false
    else if x == "" then true
    else if x[0] != y[0] then x[0] < y[0]
    else TextBefore(x[1..], y[1..])
  }

  datatype Criteria = Criteria(
    decisionId: string,
    invocationId: string,
    actionKey: string,
    approvalActionDigest: string,
    organizationScope: string,
    workspaceScope: Field,
    now: string)

  datatype Terminal = Terminal(task: Task, receipt: Receipt, expectedTaskStates: seq<string>)

  datatype Redemption = Redemption(
    keyHash: string,
    now: Timestamp,
    organizationScope: string,
    workspaceScope: Field,
    approvedCapabilityKeys: seq<string>,
    connection: Connection)

  datatype Operation =
    | Get(addr: Addr)
    | Put(addr: Addr, doc: Doc)
    | Delete(addr: Addr)
    | CompareAndSet(addr: Addr, expected: Option<Doc>, next: Doc)
    | PutDecision(decision: Decision)
    | ConsumeDecision(criteria: Criteria)
    | CommitTerminal(terminal: Terminal)
    | RedeemInstallGrant(redemption: Redemption)

  datatype Error =
    | InvalidKey
    | DuplicateKey
    | InvalidTransaction
    | InjectedFailure
    | GrantInvalid
    | GrantAlreadyRedeemed
    | GrantRevoked
    | GrantExpired
    | ScopeMismatch
    | AuthorizationDenied

  datatype Outcome =
    | Found(doc: Option<Doc>)
    | Stored
    | Deleted(existed: bool)
    | Swapped(swapped: bool)
    | Handed(decision: Option<Decision>)
    | Committed(idempotent: bool, task: Task, receipt: Option<Doc>)
    | RecoveryRequired(reasonCode: string)
    | Redeemed(grant: Grant, connection: Connection)
    | Thrown(error: Error)

  predicate Covers(allowed: seq<string>, keys: seq<string>) {
    forall key :: key in keys ==> key in allowed
  }
}
