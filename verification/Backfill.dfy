/** Filling in default values over a whole collection, page by page, with a checkpoint after every page. */
module Backfill {
  import opened Wrappers

  datatype Value = Null | Json(text: string)

  type Fields = map<string, Value>

  datatype Document = Document(id: nat, fields: Fields)

  /** The fields a page query brings along, besides the identifier. */
  const SELECTED: set<string> := {"status", "lifecycleRevision"}

  /** The defaults a document lacks, judged by the fields the query brought. */
  function Lacking(fields: Fields, defaults: Fields): Fields {
    map key | key in defaults && (key !in SELECTED || key !in fields || fields[key] == Null) :: defaults[key]
  }

  function Filled(d: Document, defaults: Fields): Document {
    d.(fields := d.fields + Lacking(d.fields, defaults))
  }

  predicate Ascending(docs: seq<Document>) {
    forall i, j :: 0 <= i < j < |docs| ==> docs[i].id < docs[j].id
  }

  predicate IsAfter(id: nat, after: Option<nat>) {
    after.None? || id > after.value
  }

  /** Where the documents after an identifier begin. */
  function Position(docs: seq<Document>, after: Option<nat>): (n: nat)
    ensures n <= |docs|
    ensures forall i :: 0 <= i < n ==> !IsAfter(docs[i].id, after)
    ensures n < |docs| ==> IsAfter(docs[n].id, after)
  {
    if docs == [] || IsAfter(docs[0].id, after) then 0 else 1 + Position(docs[1..], after)
  }

  /** The documents, those from one position to another filled in. */
  function FilledBetween(docs: seq<Document>, defaults: Fields, from: nat, to: nat): (filled: seq<Document>)
    ensures |filled| == |docs|
    ensures forall i :: 0 <= i < |docs| ==>
              filled[i] == if from <= i < to then Filled(docs[i], defaults) else docs[i]
  {
    seq(|docs|, i requires 0 <= i < |docs| => if from <= i < to then Filled(docs[i], defaults) else docs[i])
  }

  /** Every document after the start filled in, in one pass. */
  function Backfilled(docs: seq<Document>, defaults: Fields, after: Option<nat>): seq<Document> {
    FilledBetween(docs, defaults, Position(docs, after), |docs|)
  }

  /** How many documents from one position to another a fill changes. */
  function Changed(docs: seq<Document>, defaults: Fields, from: nat, to: nat): nat
    requires from <= to <= |docs|
  {
    if from == to then 0
    else Changed(docs, defaults, from, to - 1) + (if Filled(docs[to - 1], defaults) != docs[to - 1] then 1 else 0)
  }

  /**
   * What a fill makes of a document, field by field: each default where the value was missing, null or not looked at,
   * the old value where it was looked at and there, and every other field as it was.
   */
  ghost predicate FilledIn(before: Document, after: Document, defaults: Fields) {
    && after.id == before.id
    && (forall key :: key in defaults ==>
          && key in after.fields
          && after.fields[key] == if HasLooked(before, key) then before.fields[key] else defaults[key])
    && (forall key :: key !in defaults ==> (key in after.fields <==> key in before.fields))
    && (forall key :: key !in defaults && key in before.fields ==> after.fields[key] == before.fields[key])
  }

  /** The field is one of the two that are looked at, and holds a value. */
  predicate HasLooked(d: Document, key: string) {
    (key == "status" || key == "lifecycleRevision") && key in d.fields && d.fields[key].Json?
  }

  lemma FilledExactly(d: Document, defaults: Fields)
    ensures FilledIn(d, Filled(d, defaults), defaults)
  {
    var lacking := Lacking(d.fields, defaults);
    assert forall key :: key in lacking <==> key in defaults && !HasLooked(d, key);
  }

  /** Every document after the start is filled in, and no other one is touched. */
  ghost predicate FilledAfter(before: seq<Document>, after: seq<Document>, defaults: Fields, start: Option<nat>) {
    && |after| == |before|
    && forall i :: 0 <= i < |before| ==>
         if start.None? || before[i].id > start.value then FilledIn(before[i], after[i], defaults)
         else after[i] == before[i]
  }

  ghost function Differing(before: seq<Document>, after: seq<Document>): set<int>
    requires |after| == |before|
  {
    set i | 0 <= i < |before| && after[i] != before[i]
  }

  lemma BackfilledExactly(docs: seq<Document>, defaults: Fields, start: Option<nat>)
    requires Ascending(docs)
    ensures FilledAfter(docs, Backfilled(docs, defaults, start), defaults, start)
  {
    hide Filled, FilledIn;
    var from := Position(docs, start);
    forall i | 0 <= i < |docs|
      ensures IsAfter(docs[i].id, start) <==> i >= from
      ensures FilledIn(docs[i], Filled(docs[i], defaults), defaults)
    {
      if from < i { assert docs[from].id < docs[i].id; }
      FilledExactly(docs[i], defaults);
    }
  }

  lemma {:induction false} ChangedCounts(docs: seq<Document>, defaults: Fields, from: nat, to: nat)
    requires from <= to <= |docs|
    ensures Changed(docs, defaults, from, to) == |Differing(docs, FilledBetween(docs, defaults, from, to))|
  {
    hide Filled, FilledBetween, Differing;
    if from == to {
      NoneDiffers(docs, FilledBetween(docs, defaults, from, to));
    } else {
      ChangedCounts(docs, defaults, from, to - 1);
      var before, now := FilledBetween(docs, defaults, from, to - 1), FilledBetween(docs, defaults, from, to);
      OneMoreDiffers(docs, before, now, to - 1);
    }
  }

  lemma NoneDiffers(docs: seq<Document>, now: seq<Document>)
    requires |now| == |docs| && forall i :: 0 <= i < |docs| ==> now[i] == docs[i]
    ensures Differing(docs, now) == {}
  {
  }

  lemma OneMoreDiffers(docs: seq<Document>, before: seq<Document>, now: seq<Document>, n: nat)
    requires |before| == |now| == |docs| && n < |docs| && before[n] == docs[n]
    requires forall i :: 0 <= i < |docs| && i != n ==> now[i] == before[i]
    ensures |Differing(docs, now)| == |Differing(docs, before)| + if now[n] != docs[n] then 1 else 0
  {
    assert n !in Differing(docs, before);
    assert Differing(docs, now) == Differing(docs, before) + if now[n] != docs[n] then {n} else {};
  }

  datatype Report = Report(processed: nat, modified: nat, checkpoint: Option<nat>)

  /** The first `limit` documents after an identifier. */
  function Page(docs: seq<Document>, after: Option<nat>, limit: nat): seq<Document> {
    var start := Position(docs, after);
    docs[start..if start + limit <= |docs| then start + limit else |docs|]
  }

  class Model {
    /** In order of identifiers, as every query on them sorts. */
    var documents: seq<Document>

    constructor (documents: seq<Document>)
      ensures this.documents == documents
    {
      this.documents := documents;
    }

    method FindPage(after: Option<nat>, limit: nat) returns (page: seq<Document>)
      ensures page == Page(documents, after, limit)
    {
      page := Page(documents, after, limit);
    }

    method UpdateOne(id: nat, set_: Fields) returns (modifiedCount: nat)
      requires Ascending(documents)
      requires exists i :: 0 <= i < |documents| && documents[i].id == id
      modifies this
      ensures |documents| == |old(documents)|
      ensures forall i :: 0 <= i < |documents| ==>
                documents[i] == if old(documents)[i].id == id
                                then old(documents)[i].(fields := old(documents)[i].fields + set_)
                                else old(documents)[i]
      ensures modifiedCount == if documents == old(documents) then 0 else 1
    {
      var i := 0;
      while documents[i].id != id
        invariant 0 <= i < |documents|
        invariant forall j :: 0 <= j < i ==> documents[j].id != id
        decreases |documents| - i
      {
        i := i + 1;
      }
      var updated := documents[i].(fields := documents[i].fields + set_);
      modifiedCount := if updated == documents[i] then 0 else 1;
      documents := documents[i := updated];
      assert modifiedCount == 1 ==> documents[i] != old(documents)[i];
    }
  }

  function BatchSize(requested: Option<int>): nat {
    var size := if requested.None? || requested.value == 0 then 500 else requested.value;
    if size < 1 then 1 else if size > 2000 then 2000 else size
  }

  /** The documents as they are after some work: filled in from the start on, counted, up to the checkpoint. */
  ghost predicate Progress(docs: seq<Document>, defaults: Fields, start: Option<nat>, r: Report, state: seq<Document>) {
    var from := Position(docs, start);
    var end := from + r.processed;
    && end <= |docs|
    && state == FilledBetween(docs, defaults, from, end)
    && r.modified == Changed(docs, defaults, from, end)
    && r.checkpoint == if r.processed == 0 then start else Some(docs[end - 1].id)
  }

  /** The states at the logged checkpoints. */
  ghost predicate Traced(
      docs: seq<Document>, defaults: Fields, start: Option<nat>, log: seq<Report>, states: seq<seq<Document>>)
  {
    && |states| == |log|
    && forall k :: 0 <= k < |log| ==> log[k].processed > 0 && Progress(docs, defaults, start, log[k], states[k])
  }

  /** One document of a page: set what it lacks, if anything. */
  method FillOne(
      model: Model, item: Document, defaults: Fields, ghost docs: seq<Document>, ghost from: nat, ghost to: nat)
    returns (modifiedCount: nat)
    requires Ascending(docs) && from <= to < |docs| && item == docs[to]
    requires model.documents == FilledBetween(docs, defaults, from, to)
    modifies model
    ensures model.documents == FilledBetween(docs, defaults, from, to + 1)
    ensures modifiedCount == if Filled(item, defaults) != item then 1 else 0
  {
    var set_ := Lacking(item.fields, defaults);
    ghost var before, next := model.documents, FilledBetween(docs, defaults, from, to + 1);
    assert before[to] == item && next == before[to := Filled(item, defaults)];
    if set_ != map[] {
      modifiedCount := model.UpdateOne(item.id, set_);
      assert model.documents == next;
    } else {
      modifiedCount := 0;
      assert Filled(item, defaults).fields == item.fields;
    }
  }

  /** The inner loop: every document of a page, counted, and the identifier of the last one. */
  method FillPage(
      model: Model, items: seq<Document>, defaults: Fields, afterId: Option<nat>,
      ghost docs: seq<Document>, ghost from: nat, ghost to: nat)
    returns (processed: nat, modified: nat, lastId: Option<nat>)
    requires Ascending(docs) && from <= to && to + |items| <= |docs| && items == docs[to..to + |items|]
    requires model.documents == FilledBetween(docs, defaults, from, to)
    modifies model
    ensures model.documents == FilledBetween(docs, defaults, from, to + |items|)
    ensures processed == |items|
    ensures Changed(docs, defaults, from, to) + modified == Changed(docs, defaults, from, to + |items|)
    ensures lastId == if items == [] then afterId else Some(docs[to + |items| - 1].id)
  {
    hide Filled, FilledBetween;
    processed, modified, lastId := 0, 0, afterId;
    for n := 0 to |items|
      invariant processed == n
      invariant model.documents == FilledBetween(docs, defaults, from, to + n)
      invariant Changed(docs, defaults, from, to) + modified == Changed(docs, defaults, from, to + n)
      invariant lastId == if n == 0 then afterId else Some(docs[to + n - 1].id)
    {
      var item := items[n];
      assert item == docs[to + n];
      var count := FillOne(model, item, defaults, docs, from, to + n);
      modified := modified + count;
      processed := processed + 1;
      lastId := Some(item.id);
    }
  }

  /**
   * Whatever the batch size, the call ends with every document after the start filled in, as one pass would do,
   * and counts each once; each logged checkpoint tells up to where the documents then were filled in.
   */
  method BackfillModel(model: Model, defaults: Fields, batchSize: Option<int>, start: Option<nat>)
    returns (report: Report, log: seq<Report>, ghost states: seq<seq<Document>>)
    requires Ascending(model.documents)
    modifies model
    ensures model.documents == Backfilled(old(model.documents), defaults, start)
    ensures Progress(old(model.documents), defaults, start, report, model.documents)
    ensures report.processed == |old(model.documents)| - Position(old(model.documents), start)
    ensures FilledAfter(old(model.documents), model.documents, defaults, start)
    ensures report.modified == |Differing(old(model.documents), model.documents)|
    ensures Traced(old(model.documents), defaults, start, log, states)
    ensures Paced(log, if batchSize.None? || batchSize.value == 0 then 500
                       else if batchSize.value < 1 then 1
                       else if batchSize.value > 2000 then 2000
                       else batchSize.value)
    ensures if log == [] then report == Report(0, 0, start) else report == log[|log| - 1]
  {
    hide Filled, FilledBetween, Changed, Traced, Progress, Backfilled, Position, Page, Ascending, Lacking, FilledAfter,
      Differing;
    ghost var docs := model.documents;
    var size := BatchSize(batchSize);
    report, log, states := Report(0, 0, start), [], [];
    NothingYet(docs, defaults, start);
    while true
      invariant Progress(docs, defaults, start, report, model.documents)
      invariant Traced(docs, defaults, start, log, states)
      invariant if log == [] then report == Report(0, 0, start) else report == log[|log| - 1]
      invariant Paced(log, size) && (PageFull(log, size) || Position(docs, start) + report.processed == |docs|)
      decreases |docs| - report.processed
    {
      var items := model.FindPage(report.checkpoint, size);
      ghost var to := PageUntouched(docs, defaults, start, report, model.documents, size, items);
      if items == [] {
        AllDone(docs, defaults, start, report, model.documents);
        Accounted(docs, defaults, start, report, model.documents);
        break;
      }
      var count, changed, lastId :=
        FillPage(model, items, defaults, report.checkpoint, docs, Position(docs, start), to);
      ghost var before := report;
      report := Report(report.processed + count, report.modified + changed, lastId);
      PageDone(docs, defaults, start, before, report, to, |items|, model.documents);
      TraceExtended(docs, defaults, start, log, states, report, model.documents);
      OneMorePage(log, size, before, report);
      log, states := log + [report], states + [model.documents];
    }
  }

  /** How many documents the page behind a checkpoint had. */
  function PageLength(log: seq<Report>, k: int): int
    requires 0 <= k < |log|
  {
    log[k].processed - if k == 0 then 0 else log[k - 1].processed
  }

  /** No page has more documents than the batch size, and none but the last has fewer. */
  ghost predicate Paced(log: seq<Report>, size: int) {
    forall k :: 0 <= k < |log| ==>
      1 <= PageLength(log, k) <= size && (k < |log| - 1 ==> PageLength(log, k) == size)
  }

  predicate PageFull(log: seq<Report>, size: int) {
    log == [] || PageLength(log, |log| - 1) == size
  }

  lemma OneMorePage(log: seq<Report>, size: nat, before: Report, r: Report)
    requires Paced(log, size) && PageFull(log, size)
    requires if log == [] then before.processed == 0 else before == log[|log| - 1]
    requires before.processed < r.processed <= before.processed + size
    ensures Paced(log + [r], size)
    ensures PageFull(log + [r], size) <==> r.processed == before.processed + size
  {
    var longer := log + [r];
    assert forall k :: 0 <= k < |log| ==> PageLength(longer, k) == PageLength(log, k);
  }

  lemma NothingYet(docs: seq<Document>, defaults: Fields, start: Option<nat>)
    ensures Progress(docs, defaults, start, Report(0, 0, start), docs)
    ensures Traced(docs, defaults, start, [], [])
  {
  }

  /** The checkpoint points just past the last filled document. */
  lemma NextPosition(docs: seq<Document>, defaults: Fields, start: Option<nat>, r: Report, state: seq<Document>)
    returns (to: nat)
    requires Ascending(docs) && Progress(docs, defaults, start, r, state)
    ensures to == Position(docs, start) + r.processed == Position(state, r.checkpoint) <= |docs| == |state|
    ensures state == FilledBetween(docs, defaults, Position(docs, start), to)
    ensures r.modified == Changed(docs, defaults, Position(docs, start), to)
  {
    hide Filled, FilledBetween, Changed, Lacking;
    to := Position(docs, start) + r.processed;
    FilledKeepsIds(docs, defaults, Position(docs, start), to);
    PositionAt(docs, state, r.checkpoint, to);
  }

  lemma AllDone(docs: seq<Document>, defaults: Fields, start: Option<nat>, r: Report, state: seq<Document>)
    requires Progress(docs, defaults, start, r, state) && Position(docs, start) + r.processed == |docs|
    ensures state == Backfilled(docs, defaults, start)
  {
  }

  /** When all is done, the documents are filled in and the changed ones counted. */
  lemma Accounted(docs: seq<Document>, defaults: Fields, start: Option<nat>, r: Report, state: seq<Document>)
    requires Ascending(docs) && Progress(docs, defaults, start, r, state)
    requires Position(docs, start) + r.processed == |docs|
    ensures |state| == |docs| && FilledAfter(docs, state, defaults, start)
    ensures r.modified == |Differing(docs, state)|
  {
    hide Filled, FilledBetween, Changed, FilledAfter, Position, Differing, Ascending;
    BackfilledExactly(docs, defaults, start);
    ChangedCounts(docs, defaults, Position(docs, start), |docs|);
  }

  lemma PageDone(
      docs: seq<Document>, defaults: Fields, start: Option<nat>, before: Report, r: Report, to: nat, n: nat,
      state: seq<Document>)
    requires to == Position(docs, start) + before.processed && 0 < n && to + n <= |docs|
    requires before.modified == Changed(docs, defaults, Position(docs, start), to)
    requires state == FilledBetween(docs, defaults, Position(docs, start), to + n)
    requires r.processed == before.processed + n && r.checkpoint == Some(docs[to + n - 1].id)
    requires r.modified == Changed(docs, defaults, Position(docs, start), to + n)
    ensures Progress(docs, defaults, start, r, state)
  {
    hide Filled, Changed;
  }

  lemma TraceExtended(
      docs: seq<Document>, defaults: Fields, start: Option<nat>, log: seq<Report>, states: seq<seq<Document>>,
      r: Report, state: seq<Document>)
    requires Traced(docs, defaults, start, log, states)
    requires r.processed > 0 && Progress(docs, defaults, start, r, state)
    ensures Traced(docs, defaults, start, log + [r], states + [state])
  {
    hide Progress;
  }

  /** A page read from the documents past the filled ones is a page of the original documents; none is left after it. */
  lemma PageUntouched(
      docs: seq<Document>, defaults: Fields, start: Option<nat>, r: Report, state: seq<Document>, limit: nat,
      items: seq<Document>)
    returns (to: nat)
    requires Ascending(docs) && Progress(docs, defaults, start, r, state) && 0 < limit
    requires items == Page(state, r.checkpoint, limit)
    ensures to == Position(docs, start) + r.processed && to + |items| <= |docs|
    ensures state == FilledBetween(docs, defaults, Position(docs, start), to)
    ensures r.modified == Changed(docs, defaults, Position(docs, start), to)
    ensures items == docs[to..to + |items|] && |items| <= limit && (|items| < limit ==> to + |items| == |docs|)
  {
    hide Filled, FilledBetween, Changed, Lacking, Progress, Position, Ascending;
    to := NextPosition(docs, defaults, start, r, state);
    assert forall i :: to <= i < |docs| ==> state[i] == docs[i];
  }

  /** Where the documents after an identifier begin is where they begin to be after it. */
  lemma {:induction false} PositionIs(docs: seq<Document>, after: Option<nat>, to: nat)
    requires to <= |docs| && forall i :: 0 <= i < |docs| ==> (IsAfter(docs[i].id, after) <==> i >= to)
    ensures Position(docs, after) == to
  {
    if to > 0 {
      assert !IsAfter(docs[0].id, after);
      PositionIs(docs[1..], after, to - 1);
    }
  }

  /** The identifier of the last filled document points just past it. */
  lemma PositionAt(docs: seq<Document>, now: seq<Document>, after: Option<nat>, to: nat)
    requires Ascending(docs) && |now| == |docs| && to <= |docs|
    requires forall i :: 0 <= i < |docs| ==> now[i].id == docs[i].id
    requires to == Position(docs, after) || (to > 0 && after == Some(docs[to - 1].id))
    ensures Position(now, after) == to
  {
    forall i | 0 <= i < |docs|
      ensures IsAfter(now[i].id, after) <==> i >= to
    {
      assert now[i].id == docs[i].id;
      if to == Position(docs, after) {
        if to < i { assert docs[to].id < docs[i].id; }
      } else {
        if i < to - 1 { assert docs[i].id < docs[to - 1].id; }
        if i >= to { assert docs[to - 1].id < docs[i].id; }
      }
    }
    PositionIs(now, after, to);
  }

  // ---------- Present values, and running it again ----------

  /** Values that are there are kept, for all documents, exactly when the query brings every field with a default. */
  lemma PresentValuesKept(defaults: Fields)
    ensures (forall d: Document, key: string :: key in d.fields && d.fields[key] != Null ==>
               Filled(d, defaults).fields[key] == d.fields[key])
            <==> defaults.Keys <= SELECTED
  {
    if defaults.Keys <= SELECTED {
      forall d: Document, key: string | key in d.fields && d.fields[key] != Null
        ensures Filled(d, defaults).fields[key] == d.fields[key]
      {
        assert key !in Lacking(d.fields, defaults);
      }
    } else {
      var key :| key in defaults.Keys && key !in SELECTED;
      PresentValueLost(defaults, key);
    }
  }

  /** A default for a field the query does not bring overwrites a value that is there. */
  lemma PresentValueLost(defaults: Fields, key: string)
    requires key in defaults && key !in SELECTED
    ensures exists d: Document :: key in d.fields && d.fields[key] != Null
              && Filled(d, defaults).fields[key] != d.fields[key]
  {
    var other := if defaults[key] == Json("a") then Json("") else Json("a");
    var d := Document(0, map[key := other]);
    var lacking, filled := Lacking(d.fields, defaults), Filled(d, defaults);
    assert key in lacking && lacking[key] == defaults[key];
    assert filled.fields == d.fields + lacking;
    assert key in d.fields && d.fields[key] == other != Null && filled.fields[key] == defaults[key] != other;
  }

  lemma FilledTwice(d: Document, defaults: Fields)
    ensures Filled(Filled(d, defaults), defaults) == Filled(d, defaults)
  {
    var once := Filled(d, defaults);
    assert once.fields + Lacking(once.fields, defaults) == once.fields;
  }

  /** A second full run finds nothing to modify. */
  lemma {:induction false} SecondRunModifiesNothing(docs: seq<Document>, defaults: Fields, from: nat, to: nat)
    requires from <= to <= |docs|
    ensures Changed(FilledBetween(docs, defaults, from, |docs|), defaults, from, to) == 0
  {
    if from < to {
      SecondRunModifiesNothing(docs, defaults, from, to - 1);
      FilledTwice(docs[to - 1], defaults);
    }
  }

  /** The whole backfill, and then the whole backfill again: the second one counts everything and modifies nothing. */
  method BackfillTwice(model: Model, defaults: Fields, batchSize: Option<int>, other: Option<int>, start: Option<nat>)
    returns (first: Report, second: Report)
    requires Ascending(model.documents)
    modifies model
    ensures model.documents == Backfilled(old(model.documents), defaults, start)
    ensures second.modified == 0 && second.processed == first.processed && second.checkpoint == first.checkpoint
  {
    hide Filled, FilledBetween, Changed, Position, Lacking;
    ghost var docs, from := model.documents, Position(model.documents, start);
    var log, again;
    ghost var states, later;
    first, log, states := BackfillModel(model, defaults, batchSize, start);
    ghost var filled := model.documents;
    FilledKeepsIds(docs, defaults, from, |docs|);
    PositionAt(docs, filled, start, from);
    second, again, later := BackfillModel(model, defaults, other, start);
    SecondRunModifiesNothing(docs, defaults, from, |docs|);
    FilledAgain(docs, defaults, from, from, |docs|);
  }

  /** Filling in again what was partly filled in already. */
  lemma FilledAgain(docs: seq<Document>, defaults: Fields, from: nat, middle: nat, stopped: nat)
    requires from <= middle <= stopped <= |docs|
    ensures FilledBetween(FilledBetween(docs, defaults, from, stopped), defaults, middle, |docs|)
            == FilledBetween(docs, defaults, from, |docs|)
  {
    forall i | middle <= i < stopped
      ensures Filled(Filled(docs[i], defaults), defaults) == Filled(docs[i], defaults)
    {
      FilledTwice(docs[i], defaults);
    }
  }

  /**
   * A run that stopped anywhere after a checkpoint is finished by a run that starts from that checkpoint: the
   * documents end up as after one full run.
   */
  lemma ResumeCompletes(
      docs: seq<Document>, defaults: Fields, start: Option<nat>, r: Report, state: seq<Document>, stopped: nat)
    requires Ascending(docs) && r.processed > 0 && Progress(docs, defaults, start, r, state)
    requires Position(docs, start) + r.processed <= stopped <= |docs|
    ensures Backfilled(FilledBetween(docs, defaults, Position(docs, start), stopped), defaults, r.checkpoint)
            == Backfilled(docs, defaults, start)
  {
    hide Filled, FilledBetween, Changed, Position, IsAfter;
    var from := Position(docs, start);
    var now := FilledBetween(docs, defaults, from, stopped);
    FilledKeepsIds(docs, defaults, from, stopped);
    PositionAt(docs, now, r.checkpoint, from + r.processed);
    FilledAgain(docs, defaults, from, from + r.processed, stopped);
  }

  lemma FilledKeepsIds(docs: seq<Document>, defaults: Fields, from: nat, to: nat)
    ensures forall i :: 0 <= i < |docs| ==> FilledBetween(docs, defaults, from, to)[i].id == docs[i].id
  {
  }
}
