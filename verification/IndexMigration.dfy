/** Bringing a collection's indexes in line with the declared ones, without ever changing an existing index. */
module IndexMigration {
  import opened Wrappers

  datatype KeyPart = KeyPart(field: string, direction: int)

  /** Index options; an absent name is empty. */
  datatype Options = Options(
    name: string,
    unique: bool,
    sparse: bool,
    partialFilter: Option<string>,
    expireAfterSeconds: Option<int>,
    collation: Option<string>)

  datatype Index = Index(key: seq<KeyPart>, options: Options)

  /** What two indexes are compared by: everything but the name. */
  datatype Definition = Definition(
    key: seq<KeyPart>,
    unique: bool,
    sparse: bool,
    partialFilter: Option<string>,
    expireAfterSeconds: Option<int>,
    collation: Option<string>)

  function Comparable(i: Index): Definition {
    Definition(i.key, i.options.unique, i.options.sparse, i.options.partialFilter, i.options.expireAfterSeconds,
               i.options.collation)
  }

  type Document = map<string, string>

  /** The group a document falls in for the duplicate check; a missing field is a value of its own. */
  function Group(d: Document, key: seq<KeyPart>): seq<Option<string>> {
    seq(|key|, i requires 0 <= i < |key| => if key[i].field in d then Some(d[key[i].field]) else None)
  }

  predicate DuplicateFree(documents: seq<Document>, key: seq<KeyPart>) {
    forall i, j :: 0 <= i < j < |documents| ==> Group(documents[i], key) != Group(documents[j], key)
  }

  /** One document has the field and the other lacks it, or their values differ. */
  predicate FieldDiffers(d: Document, e: Document, field: string) {
    if field in d then field !in e || e[field] != d[field] else field in e
  }

  /** Any two documents differ in some field of the key. */
  ghost predicate Distinguished(documents: seq<Document>, key: seq<KeyPart>) {
    forall i, j :: 0 <= i < j < |documents| ==> DifferSomewhere(documents[i], documents[j], key)
  }

  ghost predicate DifferSomewhere(d: Document, e: Document, key: seq<KeyPart>) {
    exists k :: 0 <= k < |key| && FieldDiffers(d, e, key[k].field)
  }

  lemma GroupsDiffer(d: Document, e: Document, key: seq<KeyPart>)
    ensures Group(d, key) != Group(e, key) <==> DifferSomewhere(d, e, key)
  {
    var g, h := Group(d, key), Group(e, key);
    assert forall k :: 0 <= k < |key| ==> (g[k] != h[k] <==> FieldDiffers(d, e, key[k].field));
    if g != h {
      var k :| 0 <= k < |key| && g[k] != h[k];
    }
  }

  /** The duplicate check passes exactly when any two documents differ in some field of the key. */
  lemma DuplicateFreeExactly(documents: seq<Document>, key: seq<KeyPart>)
    ensures DuplicateFree(documents, key) <==> Distinguished(documents, key)
  {
    hide Group, DifferSomewhere;
    forall i, j | 0 <= i < j < |documents|
      ensures Group(documents[i], key) != Group(documents[j], key)
              <==> DifferSomewhere(documents[i], documents[j], key)
    {
      GroupsDiffer(documents[i], documents[j], key);
    }
  }

  datatype Action = Created | Verified | DefinitionMismatch | DuplicatesFound

  datatype Result = Result(indexName: string, action: Action)

  /** The first index that passes the test. */
  function Find(indexes: seq<Index>, test: Index -> bool): (found: Option<Index>)
    ensures found.Some? ==> found.value in indexes && test(found.value)
    ensures found.None? ==> forall i :: i in indexes ==> !test(i)
  {
    if indexes == [] then None
    else if test(indexes[0]) then Some(indexes[0])
    else Find(indexes[1..], test)
  }

  function HasName(name: string): Index -> bool {
    (i: Index) => i.options.name == name
  }

  function HasDefinition(d: Definition): Index -> bool {
    (i: Index) => Comparable(i) == d
  }

  function Named(indexes: seq<Index>, name: string): Option<Index> {
    if name == "" then None else Find(indexes, HasName(name))
  }

  function Equivalent(indexes: seq<Index>, declared: Index): Option<Index> {
    Find(indexes, HasDefinition(Comparable(declared)))
  }

  /** A collection that does not exist has no indexes; creating the first index brings the identifier index along. */
  datatype Indexes = Missing | Present(indexes: seq<Index>)

  const ID_INDEX := Index([KeyPart("_id", 1)], Options("_id_", false, false, None, None, None))

  function Listed(s: Indexes): seq<Index> {
    if s.Missing? then [] else s.indexes
  }

  function WithIndex(s: Indexes, i: Index): Indexes {
    Present((if s.Missing? then [ID_INDEX] else s.indexes) + [i])
  }

  /** What happens to one declared index. */
  function Decide(s: Indexes, documents: seq<Document>, d: Index): Result {
    var named := Named(Listed(s), d.options.name);
    var equivalent := Equivalent(Listed(s), d);
    if named.Some? && Comparable(named.value) != Comparable(d) then Result(d.options.name, DefinitionMismatch)
    else if equivalent.Some?
    then Result(if d.options.name != "" then d.options.name else equivalent.value.options.name, Verified)
    else if d.options.unique && !DuplicateFree(documents, d.key) then Result(d.options.name, DuplicatesFound)
    else Result(d.options.name, Created)
  }

  /**
   * How the database lists an index made of a declaration: it fills in a missing name, and may show options, a
   * collation for one, in another form than they were declared.
   */
  type Listing = Index -> Index

  /** A listed index has a name, the declared one where there is one. */
  ghost predicate NamesAreKept(listing: Listing) {
    forall d :: listing(d).options.name != "" && (d.options.name != "" ==> listing(d).options.name == d.options.name)
  }

  /** Key and all options but the name agree. */
  predicate SameIndex(i: Index, d: Index) {
    && i.key == d.key && i.options.unique == d.options.unique && i.options.sparse == d.options.sparse
    && i.options.partialFilter == d.options.partialFilter
    && i.options.expireAfterSeconds == d.options.expireAfterSeconds && i.options.collation == d.options.collation
  }

  ghost predicate FirstNamed(listed: seq<Index>, name: string, k: int) {
    0 <= k < |listed| && listed[k].options.name == name && forall j :: 0 <= j < k ==> listed[j].options.name != name
  }

  /** The first index of the declared name, where one was declared, is another index. */
  ghost predicate NameStandsForAnother(listed: seq<Index>, d: Index) {
    d.options.name != "" && exists k :: FirstNamed(listed, d.options.name, k) && !SameIndex(listed[k], d)
  }

  ghost predicate FirstSame(listed: seq<Index>, d: Index, k: int) {
    0 <= k < |listed| && SameIndex(listed[k], d) && forall j :: 0 <= j < k ==> !SameIndex(listed[j], d)
  }

  lemma {:induction false} FindExactly(indexes: seq<Index>, test: Index -> bool, k: int)
    requires 0 <= k < |indexes| && test(indexes[k]) && forall j :: 0 <= j < k ==> !test(indexes[j])
    ensures Find(indexes, test) == Some(indexes[k])
  {
    if k > 0 { FindExactly(indexes[1..], test, k - 1); }
  }

  lemma {:induction false} FoundAt(indexes: seq<Index>, test: Index -> bool) returns (k: int)
    requires Find(indexes, test).Some?
    ensures 0 <= k < |indexes| && test(indexes[k]) && forall j :: 0 <= j < k ==> !test(indexes[j])
    ensures Find(indexes, test) == Some(indexes[k])
  {
    if test(indexes[0]) {
      k := 0;
    } else {
      var rest := FoundAt(indexes[1..], test);
      k := rest + 1;
    }
  }

  lemma NamedExactly(listed: seq<Index>, d: Index)
    ensures NameStandsForAnother(listed, d)
            <==> Named(listed, d.options.name).Some?
                 && Comparable(Named(listed, d.options.name).value) != Comparable(d)
  {
    var name := d.options.name;
    if name != "" && Find(listed, HasName(name)).Some? {
      var k := FoundAt(listed, HasName(name));
      assert FirstNamed(listed, name, k);
      if NameStandsForAnother(listed, d) {
        var other :| FirstNamed(listed, name, other) && !SameIndex(listed[other], d);
        FindExactly(listed, HasName(name), other);
      }
    } else if name != "" {
      forall k | 0 <= k < |listed|
        ensures listed[k].options.name != name
      {
        assert listed[k] in listed && !HasName(name)(listed[k]);
      }
    }
  }

  lemma EquivalentExactly(listed: seq<Index>, d: Index)
    ensures Equivalent(listed, d).None? <==> forall k :: 0 <= k < |listed| ==> !SameIndex(listed[k], d)
    ensures forall k :: FirstSame(listed, d, k) ==> Equivalent(listed, d) == Some(listed[k])
  {
    var test := HasDefinition(Comparable(d));
    assert forall i :: test(i) <==> SameIndex(i, d);
    forall k | FirstSame(listed, d, k)
      ensures Equivalent(listed, d) == Some(listed[k])
    {
      FindExactly(listed, test, k);
    }
    if Equivalent(listed, d).Some? {
      var k := FoundAt(listed, test);
      assert SameIndex(listed[k], d);
    }
  }

  /** What happens to a declared index, told of the listed indexes and the documents themselves. */
  lemma DecidedExactly(s: Indexes, documents: seq<Document>, d: Index)
    ensures var result, listed := Decide(s, documents, d), Listed(s);
            var same := exists k :: 0 <= k < |listed| && SameIndex(listed[k], d);
            && (result.action.DefinitionMismatch? <==> NameStandsForAnother(listed, d))
            && (result.action.Verified? <==> !NameStandsForAnother(listed, d) && same)
            && (result.action.DuplicatesFound? <==>
                  !NameStandsForAnother(listed, d) && !same && d.options.unique && !Distinguished(documents, d.key))
            && (result.action.Created? <==>
                  !NameStandsForAnother(listed, d) && !same && (d.options.unique ==> Distinguished(documents, d.key)))
    ensures var result, listed := Decide(s, documents, d), Listed(s);
            if result.action.Verified? && d.options.name == ""
            then forall k :: FirstSame(listed, d, k) ==> result.indexName == listed[k].options.name
            else result.indexName == d.options.name
  {
    hide Comparable, DuplicateFree, Distinguished, Find, NameStandsForAnother, SameIndex, FirstNamed, Named, Equivalent;
    NamedExactly(Listed(s), d);
    EquivalentExactly(Listed(s), d);
    DuplicateFreeExactly(documents, d.key);
  }

  /** One call: the indexes it finds, the documents, the declarations in order, and how the database lists indexes. */
  datatype Plan = Plan(start: Indexes, documents: seq<Document>, declared: seq<Index>, listing: Listing)

  /** The indexes after the first n declarations. */
  function At(p: Plan, n: nat): Indexes
    requires n <= |p.declared|
    decreases n, 0
  {
    if n == 0 then p.start
    else if ResultAt(p, n - 1).action.Created? then WithIndex(At(p, n - 1), p.listing(p.declared[n - 1]))
    else At(p, n - 1)
  }

  function ResultAt(p: Plan, n: nat): Result
    requires n < |p.declared|
    decreases n, 1
  {
    Decide(At(p, n), p.documents, p.declared[n])
  }

  function After(p: Plan): Indexes {
    At(p, |p.declared|)
  }

  function FirstResults(p: Plan, n: nat): (results: seq<Result>)
    requires n <= |p.declared|
    ensures |results| == n
  {
    if n == 0 then [] else FirstResults(p, n - 1) + [ResultAt(p, n - 1)]
  }

  function Results(p: Plan): seq<Result> {
    FirstResults(p, |p.declared|)
  }

  class Collection {
    var state: Indexes
    var documents: seq<Document>
    const listing: Listing

    constructor (documents: seq<Document>, state: Indexes, listing: Listing)
      ensures this.documents == documents && this.state == state && this.listing == listing
    {
      this.documents := documents;
      this.state := state;
      this.listing := listing;
    }

    method ListIndexes() returns (indexes: Option<seq<Index>>)
      ensures indexes == if state.Missing? then None else Some(state.indexes)
    {
      indexes := if state.Missing? then None else Some(state.indexes);
    }

    method CreateIndex(i: Index)
      modifies this`state
      ensures state == WithIndex(old(state), listing(i))
    {
      state := WithIndex(state, listing(i));
    }
  }

  method EnsureModelIndexes(collection: Collection, declared: seq<Index>) returns (results: seq<Result>)
    modifies collection`state
    ensures var p := Plan(old(collection.state), collection.documents, declared, collection.listing);
            results == Results(p) && collection.state == After(p)
  {
    hide Comparable, DuplicateFree, Find;
    ghost var p := Plan(collection.state, collection.documents, declared, collection.listing);
    var existing: seq<Index> := [];
    var listed := collection.ListIndexes();
    if listed.Some? { existing := listed.value; }
    results := [];
    for n := 0 to |declared|
      invariant existing == Listed(collection.state)
      invariant collection.state == At(p, n)
      invariant results == FirstResults(p, n)
    {
      var d := declared[n];
      var named := Named(existing, d.options.name);
      if named.Some? && Comparable(named.value) != Comparable(d) {
        results := results + [Result(d.options.name, DefinitionMismatch)];
        continue;
      }
      var equivalent := Equivalent(existing, d);
      if equivalent.Some? {
        results := results
          + [Result(if d.options.name != "" then d.options.name else equivalent.value.options.name, Verified)];
        continue;
      }
      if d.options.unique && !DuplicateFree(collection.documents, d.key) {
        results := results + [Result(d.options.name, DuplicatesFound)];
        continue;
      }
      collection.CreateIndex(d);
      results := results + [Result(d.options.name, Created)];
      var refreshed := collection.ListIndexes();
      existing := refreshed.value;
    }
  }

  // ---------- What a run leaves as it was, and what it adds ----------

  /** An index made for declaration j, which was found to be missing. */
  ghost predicate MadeFor(p: Plan, i: Index, j: nat) {
    j < |p.declared| && i == p.listing(p.declared[j]) && ResultAt(p, j).action.Created?
  }

  /** The identifier index of a new collection, or made for a declaration from m to n. */
  ghost predicate Added(p: Plan, i: Index, m: nat, n: nat) {
    i == ID_INDEX || exists j: nat :: m <= j < n && MadeFor(p, i, j)
  }

  lemma StepOnlyAdds(p: Plan, n: nat, m: nat)
    requires n < |p.declared| && m == n + 1
    ensures Listed(At(p, n)) <= Listed(At(p, m))
    ensures forall k :: |Listed(At(p, n))| <= k < |Listed(At(p, m))| ==> Added(p, Listed(At(p, m))[k], n, m)
  {
    var before, after := At(p, n), At(p, m);
    if ResultAt(p, n).action.Created? {
      hide Decide;
      assert Listed(after)
          == (if before.Missing? then [ID_INDEX] else Listed(before)) + [p.listing(p.declared[n])];
      assert MadeFor(p, p.listing(p.declared[n]), n);
    }
  }

  /** The indexes listed at some point of a run stay as they are, at the front; later ones were added since. */
  lemma {:induction false} RunOnlyAdds(p: Plan, m: nat, n: nat)
    requires m <= n <= |p.declared|
    ensures Listed(At(p, m)) <= Listed(At(p, n))
    ensures forall k :: |Listed(At(p, m))| <= k < |Listed(At(p, n))| ==> Added(p, Listed(At(p, n))[k], m, n)
    decreases n
  {
    hide Decide, At;
    if m < n {
      RunOnlyAdds(p, m, n - 1);
      StepOnlyAdds(p, n - 1, n);
      var middle, after := Listed(At(p, n - 1)), Listed(At(p, n));
      forall k | |Listed(At(p, m))| <= k < |after|
        ensures Added(p, after[k], m, n)
      {
        if k < |middle| { StillAdded(p, middle[k], m, n - 1); }
      }
    }
  }

  lemma StillAdded(p: Plan, i: Index, m: nat, n: nat)
    requires Added(p, i, m, n)
    ensures Added(p, i, m, n + 1)
  {
    if i != ID_INDEX {
      var j: nat :| m <= j < n && MadeFor(p, i, j);
      assert j < n + 1;
    }
  }

  /** The identifier index, or made for a declared index that was missing; if unique, over keys without duplicates. */
  ghost predicate SafelyMade(p: Plan, i: Index) {
    i == ID_INDEX
    || exists j: nat ::
         MadeFor(p, i, j) && (p.declared[j].options.unique ==> Distinguished(p.documents, p.declared[j].key))
  }

  /** No index is dropped or altered, and a unique index is made only over keys without duplicates. */
  lemma RunIsSafe(p: Plan)
    ensures Listed(p.start) <= Listed(After(p))
    ensures forall k :: |Listed(p.start)| <= k < |Listed(After(p))| ==> SafelyMade(p, Listed(After(p))[k])
  {
    hide At;
    AtStart(p);
    RunOnlyAdds(p, 0, |p.declared|);
    var after := Listed(After(p));
    forall k | |Listed(p.start)| <= k < |after|
      ensures SafelyMade(p, after[k])
    {
      assert Added(p, after[k], 0, |p.declared|);
      if after[k] != ID_INDEX {
        var j: nat :| j < |p.declared| && MadeFor(p, after[k], j);
        DuplicateFreeExactly(p.documents, p.declared[j].key);
      }
    }
  }

  lemma AtStart(p: Plan)
    ensures At(p, 0) == p.start
  {
  }

  // ---------- Running it again ----------

  function Again(p: Plan): Plan {
    p.(start := After(p))
  }

  function Settled(r: Result): Result {
    if r.action.Created? then r.(action := Verified) else r
  }

  /** The second run reports what the first did, with every created index now verified. */
  ghost predicate Repeats(p: Plan) {
    && |Results(Again(p))| == |Results(p)|
    && forall n :: 0 <= n < |p.declared| ==> ResultAt(Again(p), n) == Settled(ResultAt(p, n))
  }

  /** No declaration asks for the name of the identifier index. */
  predicate NoReservedName(declared: seq<Index>) {
    forall i :: 0 <= i < |declared| ==> declared[i].options.name != "_id_"
  }

  ghost predicate CreatedAreNamed(p: Plan) {
    forall j :: 0 <= j < |p.declared| && ResultAt(p, j).action.Created? ==> p.declared[j].options.name != ""
  }

  /** The database lists every created index with the options it was declared with. */
  ghost predicate CreatedAreListedAsDeclared(p: Plan) {
    forall j :: 0 <= j < |p.declared| && ResultAt(p, j).action.Created? ==>
      Comparable(p.listing(p.declared[j])) == Comparable(p.declared[j])
  }

  ghost predicate Orderly(p: Plan) {
    && NoReservedName(p.declared) && NamesAreKept(p.listing)
    && CreatedAreNamed(p) && CreatedAreListedAsDeclared(p)
  }

  /** An index made in an orderly run is listed as it was declared. */
  lemma ListedAsDeclared(p: Plan, n: nat)
    requires Orderly(p) && n < |p.declared| && ResultAt(p, n).action.Created?
    ensures p.listing(p.declared[n]) == p.declared[n]
  {
    hide At, Decide;
  }

  /** No index was created under the name of an earlier declaration. */
  ghost predicate NoNameTakenLater(p: Plan) {
    forall i, j :: 0 <= i < j < |p.declared| && p.declared[i].options.name == p.declared[j].options.name ==>
      !ResultAt(p, j).action.Created?
  }

  /** Looking through a longer list: an index found in its front stays the one found. */
  lemma {:induction false} FindInPrefix(indexes: seq<Index>, longer: seq<Index>, test: Index -> bool)
    requires indexes <= longer
    ensures Find(indexes, test).Some? ==> Find(longer, test) == Find(indexes, test)
    ensures Find(indexes, test).None? && Find(longer, test).Some? ==>
              exists k :: |indexes| <= k < |longer| && longer[k] == Find(longer, test).value
  {
    if indexes != [] {
      FindInPrefix(indexes[1..], longer[1..], test);
      if !test(indexes[0]) && Find(indexes, test).None? && Find(longer, test).Some? {
        var k :| |indexes[1..]| <= k < |longer[1..]| && longer[1..][k] == Find(longer[1..], test).value;
        assert longer[k + 1] == Find(longer, test).value;
      }
    } else if Find(longer, test).Some? {
      assert Find(longer, test).value in longer;
    }
  }

  lemma FindFirst(front: seq<Index>, i: Index, test: Index -> bool)
    requires test(i) && forall k :: 0 <= k < |front| ==> !test(front[k])
    ensures Find(front + [i], test) == Some(i)
  {
    FindInPrefix(front, front + [i], test);
  }

  /** A name that was free stays free until the declaration that takes it, if nothing later takes it. */
  lemma NameStaysFree(p: Plan, n: nat, m: nat)
    requires Orderly(p) && n <= m <= |p.declared| && n < |p.declared|
    requires forall j :: n <= j < m && p.declared[j].options.name == p.declared[n].options.name ==>
               !ResultAt(p, j).action.Created?
    requires Named(Listed(At(p, n)), p.declared[n].options.name).None?
    ensures Named(Listed(At(p, m)), p.declared[n].options.name).None?
  {
    hide Decide, At;
    RunOnlyAdds(p, n, m);
    FindInPrefix(Listed(At(p, n)), Listed(At(p, m)), HasName(p.declared[n].options.name));
  }

  /** A definition that was missing stays missing, if the declaration that lacks it fails the duplicate check. */
  lemma DefinitionStaysMissing(p: Plan, n: nat, m: nat)
    requires Orderly(p) && n <= m <= |p.declared| && n < |p.declared| && ResultAt(p, n).action.DuplicatesFound?
    ensures Equivalent(Listed(At(p, m)), p.declared[n]).None?
  {
    hide At;
    RunOnlyAdds(p, n, m);
    FindInPrefix(Listed(At(p, n)), Listed(At(p, m)), HasDefinition(Comparable(p.declared[n])));
  }

  /** A created index is listed last, under a name that was free. */
  lemma CreatedIsLast(p: Plan, n: nat, m: nat) returns (front: seq<Index>)
    requires NoReservedName(p.declared) && n < |p.declared| && m == n + 1
    requires ResultAt(p, n).action.Created? && p.declared[n].options.name != ""
    ensures Listed(At(p, m)) == front + [p.listing(p.declared[n])]
    ensures forall k :: 0 <= k < |front| ==> front[k].options.name != p.declared[n].options.name
  {
    hide Find;
    var before, after := At(p, n), At(p, m);
    NameWasFree(p, n);
    front := if before.Missing? then [ID_INDEX] else Listed(before);
    assert Listed(after) == front + [p.listing(p.declared[n])];
  }

  /** A created index is the one found under its name from then on. */
  lemma CreatedIsNamed(p: Plan, n: nat, m: nat)
    requires NoReservedName(p.declared) && NamesAreKept(p.listing) && n < m <= |p.declared|
    requires ResultAt(p, n).action.Created? && p.declared[n].options.name != ""
    ensures Named(Listed(At(p, m)), p.declared[n].options.name) == Some(p.listing(p.declared[n]))
    ensures Named(Listed(At(p, n)), p.declared[n].options.name).None?
  {
    hide Find, Decide, At;
    var name, made, after := p.declared[n].options.name, p.listing(p.declared[n]), Listed(At(p, n + 1));
    NameWasFree(p, n);
    var front := CreatedIsLast(p, n, n + 1);
    FindFirst(front, made, HasName(name));
    RunOnlyAdds(p, n + 1, m);
    FindInPrefix(after, Listed(At(p, m)), HasName(name));
  }

  lemma CreatedIsFound(p: Plan, n: nat, m: nat)
    requires Orderly(p) && n < m <= |p.declared| && ResultAt(p, n).action.Created?
    ensures Named(Listed(At(p, m)), p.declared[n].options.name) == Some(p.declared[n])
    ensures Equivalent(Listed(At(p, m)), p.declared[n]).Some?
    ensures Named(Listed(At(p, n)), p.declared[n].options.name).None?
  {
    hide Find, Decide, At;
    ListedAsDeclared(p, n);
    CreatedIsNamed(p, n, m);
    assert p.declared[n] in Listed(At(p, m));
  }

  lemma NameWasFree(p: Plan, n: nat)
    requires n < |p.declared| && ResultAt(p, n).action.Created?
    ensures Named(Listed(At(p, n)), p.declared[n].options.name).None?
    ensures p.declared[n].options.name != "" ==>
              forall k :: 0 <= k < |Listed(At(p, n))| ==> Listed(At(p, n))[k].options.name != p.declared[n].options.name
  {
    hide At;
    var name, listed := p.declared[n].options.name, Listed(At(p, n));
    assert Named(listed, name).None?;
    if name != "" {
      assert Find(listed, HasName(name)).None?;
      forall k | 0 <= k < |listed|
        ensures listed[k].options.name != name
      {
        assert listed[k] in listed && !HasName(name)(listed[k]);
      }
    }
  }

  /** Deciding on a declaration once more, after the whole first run. */
  lemma DecidedAgain(p: Plan, n: nat)
    requires Orderly(p) && NoNameTakenLater(p) && n < |p.declared|
    ensures Decide(After(p), p.documents, p.declared[n]) == Settled(ResultAt(p, n))
  {
    hide At, Find, DuplicateFree;
    var d, m := p.declared[n], |p.declared|;
    RunOnlyAdds(p, n, m);
    FindInPrefix(Listed(At(p, n)), Listed(At(p, m)), HasName(d.options.name));
    FindInPrefix(Listed(At(p, n)), Listed(At(p, m)), HasDefinition(Comparable(d)));
    match ResultAt(p, n).action
    case Created => CreatedIsFound(p, n, m);
    case DefinitionMismatch =>
    case Verified => if Named(Listed(At(p, n)), d.options.name).None? { NameStaysFree(p, n, m); }
    case DuplicatesFound =>
      if Named(Listed(At(p, n)), d.options.name).None? { NameStaysFree(p, n, m); }
      DefinitionStaysMissing(p, n, m);
  }

  lemma {:induction false} NothingCreatedNothingChanged(p: Plan, n: nat)
    requires n <= |p.declared| && forall j :: 0 <= j < n ==> !ResultAt(p, j).action.Created?
    ensures At(p, n) == p.start
  {
    if n > 0 { NothingCreatedNothingChanged(p, n - 1); }
  }

  lemma {:induction false} SecondRunStays(p: Plan, q: Plan, n: nat)
    requires Orderly(p) && NoNameTakenLater(p) && n <= |p.declared| && q == Again(p)
    ensures At(q, n) == q.start
  {
    hide Decide, After;
    if n > 0 {
      SecondRunStays(p, q, n - 1);
      DecidedAgain(p, n - 1);
      assert !Settled(ResultAt(p, n - 1)).action.Created?;
    }
  }

  lemma SecondRun(p: Plan)
    requires Orderly(p) && NoNameTakenLater(p)
    ensures Repeats(p) && After(Again(p)) == After(p)
  {
    hide Decide, After;
    var q := Again(p);
    forall n: nat | n < |p.declared|
      ensures ResultAt(q, n) == Settled(ResultAt(p, n))
    {
      SecondRunStays(p, q, n);
      DecidedAgain(p, n);
    }
    SecondRunStays(p, q, |p.declared|);
    assert After(q) == At(q, |p.declared|) by { AfterIsLast(q); }
  }

  lemma AfterIsLast(p: Plan)
    ensures After(p) == At(p, |p.declared|)
  {
  }

  /** Indexes that a run added have names. */
  lemma AddedHaveNames(p: Plan, m: nat, n: nat)
    requires NamesAreKept(p.listing) && m <= n <= |p.declared|
    ensures Listed(At(p, m)) <= Listed(At(p, n))
    ensures forall k :: |Listed(At(p, m))| <= k < |Listed(At(p, n))| ==> Listed(At(p, n))[k].options.name != ""
  {
    hide At, Decide, Listed;
    RunOnlyAdds(p, m, n);
    forall k | |Listed(At(p, m))| <= k < |Listed(At(p, n))|
      ensures Listed(At(p, n))[k].options.name != ""
    {
      assert Added(p, Listed(At(p, n))[k], m, n);
    }
  }

  /** What is found for an unnamed declaration after it was created, if anything, has a name. */
  lemma FoundUnderAName(p: Plan, n: nat)
    requires NamesAreKept(p.listing) && n < |p.declared|
    requires ResultAt(p, n).action.Created? && p.declared[n].options.name == ""
    ensures var found := Equivalent(Listed(At(Again(p), n)), p.declared[n]);
            found.Some? ==> found.value.options.name != ""
  {
    hide At, Find, Decide, Listed;
    var before, after, later := Listed(At(p, n)), Listed(After(p)), Listed(At(Again(p), n));
    AddedHaveNames(p, n, |p.declared|);
    AddedHaveNames(Again(p), 0, n);
    AtStart(Again(p));
    MissingWhenCreated(p, n);
    FindInPrefix(before, later, HasDefinition(Comparable(p.declared[n])));
    assert forall k :: |before| <= k < |after| ==> later[k] == after[k];
  }

  lemma MissingWhenCreated(p: Plan, n: nat)
    requires n < |p.declared| && ResultAt(p, n).action.Created?
    ensures Equivalent(Listed(At(p, n)), p.declared[n]).None?
  {
    hide At, Find;
  }

  /** A created unnamed declaration was reported without a name; the next run reports a generated one, or no success. */
  lemma UnnamedIsRenamed(p: Plan, n: nat)
    requires NamesAreKept(p.listing)
    requires n < |p.declared| && ResultAt(p, n).action.Created? && p.declared[n].options.name == ""
    ensures ResultAt(Again(p), n).action.Verified? ==> ResultAt(Again(p), n).indexName != ResultAt(p, n).indexName == ""
    ensures !Repeats(p)
  {
    hide At, Find;
    FoundUnderAName(p, n);
  }

  /** An index that is listed with other options than declared is a mismatch from the next run on. */
  lemma ListedDifferently(p: Plan, n: nat)
    requires NoReservedName(p.declared) && NamesAreKept(p.listing) && n < |p.declared|
    requires ResultAt(p, n).action.Created? && p.declared[n].options.name != ""
    requires Comparable(p.listing(p.declared[n])) != Comparable(p.declared[n])
    ensures ResultAt(Again(p), n).action.DefinitionMismatch? && !Repeats(p)
  {
    hide At, Find;
    var name := p.declared[n].options.name;
    CreatedIsNamed(p, n, |p.declared|);
    RunOnlyAdds(Again(p), 0, n);
    AtStart(Again(p));
    FindInPrefix(Listed(After(p)), Listed(At(Again(p), n)), HasName(name));
  }

  /**
   * Running the reconciliation a second time reports the first results with `created` turned into `verified`,
   * and changes nothing, exactly when every created index has a declared name and is listed with its declared
   * options, and none was created under the name of an earlier declaration.
   */
  lemma SecondRunRepeats(p: Plan)
    requires NoReservedName(p.declared) && NamesAreKept(p.listing)
    ensures Repeats(p) <==> CreatedAreNamed(p) && CreatedAreListedAsDeclared(p) && NoNameTakenLater(p)
    ensures Repeats(p) ==> After(Again(p)) == After(p)
  {
    hide Repeats, ResultAt, After;
    if !CreatedAreNamed(p) {
      var n: nat :| n < |p.declared| && ResultAt(p, n).action.Created? && p.declared[n].options.name == "";
      UnnamedIsRenamed(p, n);
    } else if !CreatedAreListedAsDeclared(p) {
      var n: nat :| n < |p.declared| && ResultAt(p, n).action.Created?
                    && Comparable(p.listing(p.declared[n])) != Comparable(p.declared[n]);
      ListedDifferently(p, n);
    } else if NoNameTakenLater(p) {
      SecondRun(p);
    } else {
      var i: nat, j: nat :| i < j < |p.declared| && p.declared[i].options.name == p.declared[j].options.name
                            && ResultAt(p, j).action.Created?;
      if Repeats(p) { RepeatsForbidsTaking(p, i, j); }
    }
  }

  lemma RepeatsForbidsTaking(p: Plan, i: nat, j: nat)
    requires Orderly(p) && Repeats(p) && i < j < |p.declared|
    requires p.declared[i].options.name == p.declared[j].options.name
    ensures !ResultAt(p, j).action.Created?
  {
    hide At, Decide;
    NothingCreatedNothingChanged(Again(p), i);
    DecidedOnStart(Again(p), i);
    if ResultAt(p, j).action.Created? { NameTakenLater(p, i, j); }
  }

  lemma DecidedOnStart(p: Plan, n: nat)
    requires n < |p.declared| && At(p, n) == p.start
    ensures ResultAt(p, n) == Decide(p.start, p.documents, p.declared[n])
  {
  }

  /** Pairwise distinct names and options listed as declared are enough, whatever the collection holds. */
  lemma DistinctNamesRepeat(p: Plan)
    requires NoReservedName(p.declared) && NamesAreKept(p.listing)
    requires forall i :: 0 <= i < |p.declared| ==>
               p.declared[i].options.name != "" && Comparable(p.listing(p.declared[i])) == Comparable(p.declared[i])
    requires forall i, j :: 0 <= i < j < |p.declared| ==> p.declared[i].options.name != p.declared[j].options.name
    ensures Repeats(p) && After(Again(p)) == After(p)
  {
    SecondRunRepeats(p);
  }

  /** An index created under the name of an earlier declaration changes what that declaration finds. */
  lemma NameTakenLater(p: Plan, i: nat, j: nat)
    requires Orderly(p) && i < j < |p.declared|
    requires p.declared[i].options.name == p.declared[j].options.name && ResultAt(p, j).action.Created?
    ensures Decide(After(p), p.documents, p.declared[i]) != Settled(ResultAt(p, i))
  {
    hide At;
    CreatedIsFound(p, j, |p.declared|);
    RunOnlyAdds(p, i, j);
    FindInPrefix(Listed(At(p, i)), Listed(At(p, j)), HasName(p.declared[i].options.name));
    FindInPrefix(Listed(At(p, i)), Listed(At(p, j)), HasDefinition(Comparable(p.declared[i])));
    if ResultAt(p, i).action.Created? { CreatedIsFound(p, i, j); }
  }

  /** A server that makes up names and otherwise lists what was declared, but for collations, which it spells out. */
  function SpellingOut(d: Index): Index {
    var options := d.options.(name := if d.options.name == "" then "made_up" else d.options.name);
    d.(options := if options.collation.None? then options else options.(collation := Some("spelled out")))
  }

  lemma ServerSpellsOut()
    ensures NamesAreKept(SpellingOut)
  {
  }

  /** A collection that does not exist yet and one declaration, which is therefore created. */
  lemma OnlyDeclaration(d: Index) returns (p: Plan)
    requires !d.options.unique && d.options.name != "_id_"
    ensures p == Plan(Missing, [], [d], SpellingOut) && NoReservedName(p.declared) && NamesAreKept(p.listing)
    ensures ResultAt(p, 0) == Result(d.options.name, Created)
  {
    p := Plan(Missing, [], [d], SpellingOut);
    assert At(p, 0) == Missing;
    ServerSpellsOut();
  }

  /** One unnamed declaration: created without a name, then verified under one. */
  lemma UnnamedOnce() returns (p: Plan)
    ensures NoReservedName(p.declared) && NamesAreKept(p.listing) && CreatedAreListedAsDeclared(p) && !Repeats(p)
  {
    hide At;
    p := OnlyDeclaration(Index([KeyPart("a", 1)], Options("", false, false, None, None, None)));
    UnnamedIsRenamed(p, 0);
  }

  /** One declaration with a collation: created, then a mismatch. */
  lemma CollationOnce() returns (p: Plan)
    ensures NoReservedName(p.declared) && NamesAreKept(p.listing) && CreatedAreNamed(p) && !Repeats(p)
    ensures ResultAt(Again(p), 0).action.DefinitionMismatch?
  {
    hide At;
    p := OnlyDeclaration(Index([KeyPart("a", 1)], Options("x", false, false, None, None, Some("de"))));
    ListedDifferently(p, 0);
  }

  /** Two declarations of one name: the first is verified through an index of another name, the second takes it. */
  lemma NameTakenTwice() returns (p: Plan)
    ensures NoReservedName(p.declared) && NamesAreKept(p.listing)
    ensures CreatedAreNamed(p) && CreatedAreListedAsDeclared(p) && !Repeats(p)
  {
    var a := Index([KeyPart("a", 1)], Options("x", false, false, None, None, None));
    var b := Index([KeyPart("b", 1)], Options("x", false, false, None, None, None));
    var existing := a.(options := a.options.(name := "y"));
    var listing := (d: Index) => if d.options.name == "" then d.(options := d.options.(name := "a_1")) else d;
    p := Plan(Present([existing]), [], [a, b], listing);
    assert At(p, 0) == Present([existing]);
    assert ResultAt(p, 0) == Result("x", Verified);
    assert At(p, 1) == Present([existing]);
    assert ResultAt(p, 1) == Result("x", Created);
    SecondRunRepeats(p);
    assert p.declared[0].options.name == p.declared[1].options.name;
  }
}
