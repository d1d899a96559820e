/** When each stored receipt is named by one task only, among all tasks and not just the finished ones. */
module ReceiptNaming {
  import opened Wrappers

  import opened Documents
  import opened Programs
  import opened StoreEffects
  import opened StoreInvariants
  import opened SnapshotTransactions
  import opened StoreRuns

  predicate Names(db: Database, key: string, id: string) {
    InTasks(key) in db && db[InTasks(key)].TaskDoc? && db[InTasks(key)].task.receiptReference == Some(id)
  }

  predicate Carries(db: Database, id: string, key: string) {
    InReceipts(id) in db && db[InReceipts(id)].ReceiptDoc? && db[InReceipts(id)].receipt.taskId == key
  }

  /** Every task that names a stored receipt is the task that receipt carries. */
  ghost predicate NamedOnce(db: Database) {
    forall key, id :: Names(db, key, id) && InReceipts(id) in db ==> Carries(db, id, key)
  }

  predicate NamesStored(db: Database, doc: Doc) {
    doc.TaskDoc? && doc.task.receiptReference.Some? && InReceipts(doc.task.receiptReference.value) in db
  }

  ghost predicate NamedByAnother(db: Database, t: Terminal) {
    exists key :: key != t.task.taskId && Names(db, key, t.receipt.receiptId)
  }

  /**
   * The three ways in which a receipt comes to be named twice: a task that names a stored receipt is put, or swapped
   * in, or a terminal commit stores a receipt that another task names already.
   */
  ghost predicate NamesAgain(db: Database, op: Operation, armed: bool) {
    match op
    case Put(addr, doc) => SafeKey(addr.key) && NamesStored(db, doc)
    case CompareAndSet(addr, expected, next) =>
      SafeKey(addr.key) && Lookup(db, addr) == expected && NamesStored(db, next)
    case CommitTerminal(t) => TerminalCommits(db, t, armed) && NamedByAnother(db, t)
    case _ => false
  }

  // ---------- One operation ----------

  /** Tasks and receipts are as they were. */
  ghost predicate SameTasks(db: Database, next: Database) {
    forall addr: Addr :: addr.InTasks? || addr.InReceipts? ==> Lookup(next, addr) == Lookup(db, addr)
  }

  lemma SameTasksSameNames(db: Database, next: Database)
    requires SameTasks(db, next)
    ensures NamedOnce(next) <==> NamedOnce(db)
  {
    forall key, id
      ensures Names(next, key, id) <==> Names(db, key, id)
      ensures Carries(next, id, key) <==> Carries(db, id, key)
      ensures InReceipts(id) in next <==> InReceipts(id) in db
    {
      assert Lookup(next, InTasks(key)) == Lookup(db, InTasks(key));
      assert Lookup(next, InReceipts(id)) == Lookup(db, InReceipts(id));
    }
  }

  lemma UntouchedElsewhere(db: Database, addr: Addr, doc: Option<Doc>)
    requires !addr.InTasks? && !addr.InReceipts?
    ensures SameTasks(db, ApplyWrites(db, map[addr := doc]))
  {
  }

  lemma RedemptionElsewhere(db: Database, g: Grant, r: Redemption)
    ensures SameTasks(db, ApplyWrites(db, RedemptionWrites(g, r)))
  {
  }

  /** A stored receipt belongs to a finished task, so an unfinished one that names it names it again. */
  lemma TaskWrite(db: Database, key: string, doc: Option<Doc>)
    requires Invariant(db) && NamedOnce(db) && !Final(db, InTasks(key)) && (doc.Some? ==> doc.value.TaskDoc?)
    ensures NamedOnce(ApplyWrites(db, map[InTasks(key) := doc])) <==> !(doc.Some? && NamesStored(db, doc.value))
  {
    hide GrantInvariant, WellTyped;
    var next := ApplyWrites(db, map[InTasks(key) := doc]);
    if doc.Some? && NamesStored(db, doc.value) {
      var id := doc.value.task.receiptReference.value;
      var owner := db[InReceipts(id)].receipt.taskId;
      assert Receipted(db, owner, id);
      assert Names(next, key, id) && InReceipts(id) in next && !Carries(next, id, key);
    } else {
      forall other, id | Names(next, other, id) && InReceipts(id) in next
        ensures Carries(next, id, other)
      {
        assert other != key && Names(db, other, id) && Carries(db, id, other);
      }
    }
  }

  lemma TerminalWriteNames(db: Database, t: Terminal)
    requires Invariant(db) && NamedOnce(db)
    requires TerminalCommits(db, t, false) && Allowed(db, CommitTerminal(t))
    ensures NamedOnce(ApplyWrites(db, TerminalWrites(t))) <==> !NamedByAnother(db, t)
  {
    NewReceipt(db, t);
    hide Invariant, SafeKey, TerminalState;
    var next, key, id := ApplyWrites(db, TerminalWrites(t)), t.task.taskId, t.receipt.receiptId;
    assert Carries(next, id, key);
    if other :| other != key && Names(db, other, id) {
      assert Names(next, other, id) && !Carries(next, id, other);
    } else {
      forall other, named | Names(next, other, named) && InReceipts(named) in next
        ensures Carries(next, named, other)
      {
        if other != key {
          assert Names(db, other, named);
          assert named != id && Carries(db, named, other);
        }
      }
    }
  }

  /**
   * An allowed operation keeps every stored receipt named by its own task alone exactly when it is none of the three
   * that name a receipt again.
   */
  lemma NamedOnceExactly(db: Database, op: Operation, armed: bool)
    requires Invariant(db) && Allowed(db, op) && NamedOnce(db)
    ensures NamedOnce(Atomic(db, op, armed).db) <==> !NamesAgain(db, op, armed)
  {
    hide Run, Atomic, ApplyWrites, NamedOnce, Invariant, SameTasks, TerminalCommits, TerminalAnswer, RedemptionAnswer,
      Redeemable, NamedByAnother;
    match op
    case Get(addr) => SingleEffect(db, op, addr, armed);
    case Put(addr, doc) =>
      SingleEffect(db, op, addr, armed);
      WriteNames(db, addr, Some(doc));
    case Delete(addr) =>
      SingleEffect(db, op, addr, armed);
      WriteNames(db, addr, None);
    case CompareAndSet(addr, expected, doc) =>
      SingleEffect(db, op, addr, armed);
      if Lookup(db, addr) == expected { WriteNames(db, addr, Some(doc)); }
    case PutDecision(d) =>
      SingleEffect(db, op, InDecisions(d.decisionId), armed);
      DecisionNames(db, d);
    case ConsumeDecision(c) => ConsumptionNames(db, c, armed);
    case CommitTerminal(t) =>
      TerminalEffect(db, t, armed);
      if TerminalCommits(db, t, armed) { CommitNames(db, t, armed); }
    case RedeemInstallGrant(r) =>
      RedemptionEffect(db, r, armed);
      if Redeemable(db, r) { RedemptionNames(db, r); }
  }

  lemma WriteNames(db: Database, addr: Addr, doc: Option<Doc>)
    requires Invariant(db) && NamedOnce(db) && !Final(db, addr) && (addr.InTasks? || addr.InGrants?)
    requires doc.Some? ==> MayStore(addr, doc.value)
    ensures NamedOnce(ApplyWrites(db, map[addr := doc])) <==> !(doc.Some? && NamesStored(db, doc.value))
  {
    hide Invariant, NamedOnce, SameTasks;
    if addr.InTasks? {
      TaskWrite(db, addr.key, doc);
    } else {
      UntouchedElsewhere(db, addr, doc);
      SameTasksSameNames(db, ApplyWrites(db, map[addr := doc]));
    }
  }

  lemma DecisionNames(db: Database, d: Decision)
    ensures var next := ApplyWrites(db, map[InDecisions(d.decisionId) := Some(DecisionDoc(d))]);
            NamedOnce(next) <==> NamedOnce(db)
  {
    hide NamedOnce, SameTasks, ApplyWrites;
    UntouchedElsewhere(db, InDecisions(d.decisionId), Some(DecisionDoc(d)));
    SameTasksSameNames(db, ApplyWrites(db, map[InDecisions(d.decisionId) := Some(DecisionDoc(d))]));
  }

  lemma ConsumptionNames(db: Database, c: Criteria, armed: bool)
    ensures NamedOnce(Atomic(db, ConsumeDecision(c), armed).db) <==> NamedOnce(db)
  {
    hide NamedOnce, SameTasks, ApplyWrites, Atomic, Consumable, SafeKey;
    ConsumeEffect(db, c, armed);
    if Handable(db, c) {
      var used := DecisionDoc(db[InDecisions(c.decisionId)].decision.(used := true, consumedAt := Some(c.now)));
      UntouchedElsewhere(db, InDecisions(c.decisionId), Some(used));
      SameTasksSameNames(db, ApplyWrites(db, map[InDecisions(c.decisionId) := Some(used)]));
    }
  }

  lemma CommitNames(db: Database, t: Terminal, armed: bool)
    requires Invariant(db) && NamedOnce(db)
    requires TerminalCommits(db, t, armed) && Allowed(db, CommitTerminal(t))
    ensures NamedOnce(ApplyWrites(db, TerminalWrites(t))) <==> !NamedByAnother(db, t)
  {
    hide Invariant, NamedOnce, NamedByAnother, ApplyWrites, SafeKey;
    TerminalWriteNames(db, t);
  }

  lemma RedemptionNames(db: Database, r: Redemption)
    requires Redeemable(db, r)
    ensures var next := ApplyWrites(db, RedemptionWrites(db[InGrants(r.keyHash)].grant, r));
            NamedOnce(next) <==> NamedOnce(db)
  {
    hide NamedOnce, SameTasks, ApplyWrites, GrantRefusal, RedemptionWrites;
    var g := db[InGrants(r.keyHash)].grant;
    RedemptionElsewhere(db, g, r);
    SameTasksSameNames(db, ApplyWrites(db, RedemptionWrites(g, r)));
  }

  /** A task names a receipt that is stored only later, by the commit of another task. */
  lemma ReceiptMayBeNamedBefore() returns (db: Database, op: Operation)
    ensures Invariant(db) && NamedOnce(db) && Allowed(db, op) && op.CommitTerminal?
    ensures !NamedOnce(Atomic(db, op, false).db)
  {
    db := map[InTasks("a") := TaskDoc(Task("a", "working", None, "")),
              InTasks("b") := TaskDoc(Task("b", "working", Some("r"), ""))];
    var t := Terminal(Task("a", "completed", Some("r"), ""), Receipt("r", "a", ""), ["working"]);
    op := CommitTerminal(t);
    NoReceiptsYet(db, t);
    hide Run, Atomic, Invariant, NamedOnce, Names, TerminalCommits, TerminalState;
    assert Names(db, "b", "r") && NamedByAnother(db, t);
    NamedOnceExactly(db, op, false);
  }

  lemma NoReceiptsYet(db: Database, t: Terminal)
    requires db == map[InTasks("a") := TaskDoc(Task("a", "working", None, "")),
                       InTasks("b") := TaskDoc(Task("b", "working", Some("r"), ""))]
    requires t == Terminal(Task("a", "completed", Some("r"), ""), Receipt("r", "a", ""), ["working"])
    ensures Invariant(db) && NamedOnce(db) && Names(db, "b", "r")
    ensures TerminalCommits(db, t, false) && Allowed(db, CommitTerminal(t))
  {
    assert forall state :: state in t.expectedTaskStates ==> state == "working";
    assert "working" in t.expectedTaskStates;
  }

  // ---------- Whole runs ----------

  ghost predicate NamedOnceThroughout(initial: Database, log: seq<Commit>) {
    forall i :: 0 <= i <= |log| ==> NamedOnce(Serial(initial, log[..i]))
  }

  ghost predicate NeverNamesAgain(initial: Database, log: seq<Commit>) {
    forall i :: 0 <= i < |log| ==> !NamesAgain(Serial(initial, log[..i]), log[i].op, log[i].armed)
  }

  lemma CommitNamesExactly(initial: Database, log: seq<Commit>, i: nat)
    requires Invariant(initial) && Disciplined(initial, log) && i < |log| && NamedOnce(Serial(initial, log[..i]))
    ensures NamedOnce(Serial(initial, log[..i + 1]))
            <==> !NamesAgain(Serial(initial, log[..i]), log[i].op, log[i].armed)
  {
    hide Serial, Atomic, Invariant, Allowed, NamedOnce, NamesAgain;
    PrefixKeepsInvariant(initial, log, i);
    SerialStep(initial, log, i);
    NamedOnceExactly(Serial(initial, log[..i]), log[i].op, log[i].armed);
  }

  lemma SerialNothing(initial: Database, log: seq<Commit>)
    ensures Serial(initial, log[..0]) == initial
  {
  }

  lemma {:induction false} NamedOnceUpTo(initial: Database, log: seq<Commit>, i: nat)
    requires Invariant(initial) && Disciplined(initial, log) && NamedOnce(initial) && NeverNamesAgain(initial, log)
    requires i <= |log|
    ensures NamedOnce(Serial(initial, log[..i]))
  {
    hide Invariant, Disciplined, NamedOnce, NamesAgain, Serial, Atomic;
    if i == 0 {
      SerialNothing(initial, log);
    } else {
      NamedOnceUpTo(initial, log, i - 1);
      CommitNamesExactly(initial, log, i - 1);
    }
  }

  /**
   * Over a whole run, every stored receipt is named by its own task alone at every moment exactly when no committed
   * operation was one of the three.
   */
  lemma NamedOnceThroughoutExactly(initial: Database, log: seq<Commit>)
    requires Invariant(initial) && Disciplined(initial, log) && NamedOnce(initial)
    ensures NamedOnceThroughout(initial, log) <==> NeverNamesAgain(initial, log)
  {
    hide Invariant, Disciplined, NamedOnce, NamesAgain, Serial;
    if NeverNamesAgain(initial, log) {
      forall i: nat | i <= |log|
        ensures NamedOnce(Serial(initial, log[..i]))
      {
        NamedOnceUpTo(initial, log, i);
      }
    }
    if NamedOnceThroughout(initial, log) {
      forall i: nat | i < |log|
        ensures !NamesAgain(Serial(initial, log[..i]), log[i].op, log[i].armed)
      {
        assert NamedOnce(Serial(initial, log[..i])) && NamedOnce(Serial(initial, log[..i + 1]));
        CommitNamesExactly(initial, log, i);
      }
    }
  }

  // ---------- Callers that leave references to the commit ----------

  /** Puts and swaps store only tasks without a receipt reference. */
  predicate Unreferenced(op: Operation) {
    match op
    case Put(_, doc) => doc.TaskDoc? ==> doc.task.receiptReference.None?
    case CompareAndSet(_, _, next) => next.TaskDoc? ==> next.task.receiptReference.None?
    case _ => true
  }

  ghost predicate OnlyFinishedTasksName(db: Database) {
    forall key, id :: Names(db, key, id) ==> TerminalState(db[InTasks(key)].task.state)
  }

  lemma FinishedTasksNameOnce(db: Database)
    requires Invariant(db) && OnlyFinishedTasksName(db)
    ensures NamedOnce(db)
  {
    hide GrantInvariant, WellTyped;
    forall key, id | Names(db, key, id) && InReceipts(id) in db
      ensures Carries(db, id, key)
    {
      assert Receipted(db, key, id);
    }
  }

  lemma SameTasksSameReferences(db: Database, next: Database)
    requires SameTasks(db, next) && OnlyFinishedTasksName(db)
    ensures OnlyFinishedTasksName(next)
  {
    forall key, id | Names(next, key, id)
      ensures TerminalState(next[InTasks(key)].task.state)
    {
      assert Lookup(next, InTasks(key)) == Lookup(db, InTasks(key));
      assert Names(db, key, id);
    }
  }

  lemma UnreferencedWrite(db: Database, addr: Addr, doc: Option<Doc>)
    requires OnlyFinishedTasksName(db) && (addr.InTasks? || addr.InGrants?)
    requires doc.Some? && doc.value.TaskDoc? ==> doc.value.task.receiptReference.None?
    ensures OnlyFinishedTasksName(ApplyWrites(db, map[addr := doc]))
  {
    var next := ApplyWrites(db, map[addr := doc]);
    forall key, id | Names(next, key, id)
      ensures TerminalState(next[InTasks(key)].task.state)
    {
      assert InTasks(key) != addr && Names(db, key, id);
    }
  }

  lemma FinishedReferences(db: Database, t: Terminal)
    requires OnlyFinishedTasksName(db) && WellFormedTerminal(t)
    ensures OnlyFinishedTasksName(ApplyWrites(db, TerminalWrites(t)))
  {
    hide TerminalState;
    var next := ApplyWrites(db, TerminalWrites(t));
    forall key, id | Names(next, key, id)
      ensures TerminalState(next[InTasks(key)].task.state)
    {
      if key != t.task.taskId { assert Names(db, key, id); }
    }
  }

  lemma OperationKeepsReferences(db: Database, op: Operation, armed: bool)
    requires Allowed(db, op) && Unreferenced(op) && OnlyFinishedTasksName(db)
    ensures OnlyFinishedTasksName(Atomic(db, op, armed).db)
  {
    hide Run, Atomic, ApplyWrites, OnlyFinishedTasksName, SameTasks, TerminalAnswer, RedemptionAnswer, Redeemable,
      Consumable, SafeKey;
    match op
    case Get(addr) => SingleEffect(db, op, addr, armed);
    case Put(addr, doc) =>
      SingleEffect(db, op, addr, armed);
      UnreferencedWrite(db, addr, Some(doc));
    case Delete(addr) =>
      SingleEffect(db, op, addr, armed);
      UnreferencedWrite(db, addr, None);
    case CompareAndSet(addr, expected, doc) =>
      SingleEffect(db, op, addr, armed);
      UnreferencedWrite(db, addr, Some(doc));
    case PutDecision(d) =>
      SingleEffect(db, op, InDecisions(d.decisionId), armed);
      UntouchedElsewhere(db, InDecisions(d.decisionId), Some(DecisionDoc(d)));
      SameTasksSameReferences(db, ApplyWrites(db, map[InDecisions(d.decisionId) := Some(DecisionDoc(d))]));
    case ConsumeDecision(c) =>
      ConsumeEffect(db, c, armed);
      if Handable(db, c) {
        var used := DecisionDoc(db[InDecisions(c.decisionId)].decision.(used := true, consumedAt := Some(c.now)));
        UntouchedElsewhere(db, InDecisions(c.decisionId), Some(used));
        SameTasksSameReferences(db, ApplyWrites(db, map[InDecisions(c.decisionId) := Some(used)]));
      }
    case CommitTerminal(t) =>
      TerminalEffect(db, t, armed);
      if TerminalCommits(db, t, armed) { FinishedReferences(db, t); }
    case RedeemInstallGrant(r) =>
      RedemptionEffect(db, r, armed);
      if Redeemable(db, r) { RedemptionKeepsReferences(db, r); }
  }

  lemma RedemptionKeepsReferences(db: Database, r: Redemption)
    requires Redeemable(db, r) && OnlyFinishedTasksName(db)
    ensures OnlyFinishedTasksName(ApplyWrites(db, RedemptionWrites(db[InGrants(r.keyHash)].grant, r)))
  {
    hide SameTasks, ApplyWrites, GrantRefusal, RedemptionWrites, OnlyFinishedTasksName;
    RedemptionElsewhere(db, db[InGrants(r.keyHash)].grant, r);
    SameTasksSameReferences(db, ApplyWrites(db, RedemptionWrites(db[InGrants(r.keyHash)].grant, r)));
  }

  ghost predicate AllUnreferenced(log: seq<Commit>) {
    forall i :: 0 <= i < |log| ==> Unreferenced(log[i].op)
  }

  lemma {:induction false} RunKeepsReferences(initial: Database, log: seq<Commit>, i: nat)
    requires Disciplined(initial, log) && AllUnreferenced(log) && OnlyFinishedTasksName(initial) && i <= |log|
    ensures OnlyFinishedTasksName(Serial(initial, log[..i]))
  {
    hide Atomic, Allowed, OnlyFinishedTasksName;
    if i > 0 {
      RunKeepsReferences(initial, log, i - 1);
      SerialStep(initial, log, i - 1);
      OperationKeepsReferences(Serial(initial, log[..i - 1]), log[i - 1].op, log[i - 1].armed);
    }
  }

  /**
   * If callers leave receipt references to terminal commits, then after every concurrent schedule only finished tasks
   * name receipts, and every stored receipt is named by its own task alone.
   */
  lemma EveryScheduleNamesOnce(initial: Database, events: seq<Event>)
    requires DisciplinedRun(initial, events) && AllUnreferenced(Execute(initial, events).log)
    requires OnlyFinishedTasksName(initial)
    ensures var db := Execute(initial, events).db; NamedOnce(db) && OnlyFinishedTasksName(db)
  {
    hide Execute, Serial, Atomic, Invariant, Disciplined, OnlyFinishedTasksName, NamedOnce;
    var s := Execute(initial, events);
    EveryScheduleIsStrictlySerial(initial, events);
    EveryScheduleKeepsInvariant(initial, events);
    assert s.log[..|s.log|] == s.log;
    RunKeepsReferences(initial, s.log, |s.log|);
    FinishedTasksNameOnce(s.db);
  }
}
