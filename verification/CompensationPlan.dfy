/** The order in which completed work is compensated: what depends on something else is taken back before it. */
module CompensationPlan {
  import opened Wrappers

  // ---------- Requirement graphs ----------

  /** What each key requires to come before it. */
  type Graph = map<string, set<string>>

  predicate Edge(g: Graph, x: string, y: string) {
    x in g && y in g[x]
  }

  predicate StepAt(g: Graph, path: seq<string>, i: int) {
    0 <= i < |path| - 1 && Edge(g, path[i], path[i + 1])
  }

  predicate Walk(g: Graph, path: seq<string>) {
    |path| >= 2 && forall i :: 0 <= i < |path| - 1 ==> StepAt(g, path, i)
  }

  /** The first key requires the second one, directly or through others. */
  ghost predicate Reaches(g: Graph, x: string, y: string) {
    exists path :: Walk(g, path) && path[0] == x && path[|path| - 1] == y
  }

  ghost predicate Cyclic(g: Graph) {
    exists x :: Reaches(g, x, x)
  }

  /** Something is required that is not a key of the graph. */
  ghost predicate Dangling(g: Graph) {
    exists x, y :: Edge(g, x, y) && y !in g
  }

  lemma EdgeReaches(g: Graph, x: string, y: string)
    requires Edge(g, x, y)
    ensures Reaches(g, x, y)
  {
    var path := [x, y];
    assert StepAt(g, path, 0);
    assert Walk(g, path) && path[0] == x && path[|path| - 1] == y;
  }

  lemma ReachesIsTransitive(g: Graph, x: string, y: string, z: string)
    requires Reaches(g, x, y) && Reaches(g, y, z)
    ensures Reaches(g, x, z)
  {
    var front :| Walk(g, front) && front[0] == x && front[|front| - 1] == y;
    var back :| Walk(g, back) && back[0] == y && back[|back| - 1] == z;
    var path := front + back[1..];
    forall i | 0 <= i < |path| - 1
      ensures StepAt(g, path, i)
    {
      if i < |front| - 1 {
        assert StepAt(g, front, i);
      } else {
        assert StepAt(g, back, i - |front| + 1);
      }
    }
    assert Walk(g, path) && path[0] == x && path[|path| - 1] == z;
  }

  // ---------- Ranks ----------

  /** The key lies above everything it requires, and no higher than it must. */
  ghost predicate Settled(g: Graph, ranks: map<string, nat>, x: string) {
    && x in g && x in ranks
    && (forall y :: y in g[x] ==> y in ranks && ranks[y] < ranks[x])
    && (ranks[x] > 0 ==> exists y :: y in g[x] && y in ranks && ranks[y] == ranks[x] - 1)
  }

  /** Every key has its rank: the length of the longest chain of requirements below it. */
  ghost predicate Ranked(g: Graph, ranks: map<string, nat>) {
    ranks.Keys == g.Keys && forall x :: x in g ==> Settled(g, ranks, x)
  }

  lemma {:induction false} RanksFall(g: Graph, ranks: map<string, nat>, path: seq<string>, i: nat)
    requires Ranked(g, ranks) && Walk(g, path) && 0 < i < |path|
    ensures path[0] in ranks && path[i] in ranks && ranks[path[i]] < ranks[path[0]]
  {
    hide Settled;
    assert StepAt(g, path, i - 1) && Settled(g, ranks, path[i - 1]);
    RequiredIsRanked(g, ranks, path[i - 1], path[i]);
    if i > 1 { RanksFall(g, ranks, path, i - 1); }
  }

  lemma RequiredIsRanked(g: Graph, ranks: map<string, nat>, x: string, y: string)
    requires Settled(g, ranks, x) && Edge(g, x, y)
    ensures y in ranks && ranks[y] < ranks[x]
  {
  }

  /** A graph that can be ranked has no cycle, and no key it requires is missing. */
  lemma RankedIsSound(g: Graph, ranks: map<string, nat>)
    requires Ranked(g, ranks)
    ensures !Cyclic(g) && !Dangling(g)
  {
    hide Settled;
    if x :| Reaches(g, x, x) {
      var path :| Walk(g, path) && path[0] == x && path[|path| - 1] == x;
      RanksFall(g, ranks, path, |path| - 1);
    }
    forall x, y | Edge(g, x, y)
      ensures y in g
    {
      assert Settled(g, ranks, x);
      RequiredIsRanked(g, ranks, x, y);
    }
  }

  // ---------- Rounds ----------

  /** The keys that are left, each with what it still waits for. */
  function Left(g: Graph, done: set<string>): (left: Graph)
    ensures left.Keys == g.Keys - done
    ensures forall x :: x in left ==> left[x] == g[x] - done
  {
    map x | x in g.Keys - done :: g[x] - done
  }

  function Ready(remaining: Graph): (ready: set<string>)
    ensures forall x :: x in ready <==> x in remaining && remaining[x] == {}
  {
    set x | x in remaining.Keys && remaining[x] == {}
  }

  /** The keys that became ready get the rank of the round. */
  function WithRank(ranks: map<string, nat>, ready: set<string>, rank: nat): (next: map<string, nat>)
    ensures next.Keys == ranks.Keys + ready
    ensures forall x :: x in next ==> next[x] == if x in ready then rank else ranks[x]
  {
    ranks + map x | x in ready :: rank
  }

  /** The key required something that was not there before the last round. */
  ghost predicate Waited(g: Graph, ranks: map<string, nat>, rounds: nat, x: string) {
    x in g && exists y :: y in g[x] && (y in ranks ==> ranks[y] == rounds - 1)
  }

  /** After some rounds: the finished keys are settled, and every other one waited in the last round. */
  ghost predicate AfterRounds(g: Graph, ranks: map<string, nat>, rounds: nat) {
    && ranks.Keys <= g.Keys
    && (forall x :: x in ranks ==> Settled(g, ranks, x) && ranks[x] < rounds)
    && (rounds > 0 ==> forall x :: x in g.Keys - ranks.Keys ==> Waited(g, ranks, rounds, x))
  }

  lemma NoRounds(g: Graph, ranks: map<string, nat>)
    requires ranks == map[]
    ensures AfterRounds(g, ranks, 0) && Left(g, ranks.Keys) == g
  {
    assert g.Keys - ranks.Keys == g.Keys;
    assert forall x :: x in g ==> g[x] - ranks.Keys == g[x];
  }

  lemma SettledStays(g: Graph, ranks: map<string, nat>, ready: set<string>, rank: nat, x: string)
    requires Settled(g, ranks, x) && ready !! ranks.Keys
    ensures Settled(g, WithRank(ranks, ready, rank), x)
  {
    var next := WithRank(ranks, ready, rank);
    assert next[x] == ranks[x];
    if ranks[x] > 0 {
      var y :| y in g[x] && y in ranks && ranks[y] == ranks[x] - 1;
      assert y in next && next[y] == ranks[y];
    }
  }

  lemma ReadyIsSettled(g: Graph, ranks: map<string, nat>, rounds: nat, x: string)
    requires AfterRounds(g, ranks, rounds)
    requires x in Ready(Left(g, ranks.Keys))
    ensures Settled(g, WithRank(ranks, Ready(Left(g, ranks.Keys)), rounds), x)
  {
    var ready := Ready(Left(g, ranks.Keys));
    var next := WithRank(ranks, ready, rounds);
    forall y | y in g[x]
      ensures y in ranks && y in next && next[y] == ranks[y] < rounds
    {
      assert y !in Left(g, ranks.Keys)[x];
    }
    if rounds > 0 {
      assert Waited(g, ranks, rounds, x);
      var y :| y in g[x] && (y in ranks ==> ranks[y] == rounds - 1);
      assert y in next && next[y] == next[x] - 1;
    }
  }

  lemma LeftWaited(g: Graph, ranks: map<string, nat>, rounds: nat, x: string)
    requires x in g.Keys - ranks.Keys - Ready(Left(g, ranks.Keys))
    ensures Waited(g, WithRank(ranks, Ready(Left(g, ranks.Keys)), rounds), rounds + 1, x)
  {
    var y :| y in Left(g, ranks.Keys)[x];
    assert y in g[x] && y !in ranks;
  }

  lemma OneMoreRound(g: Graph, ranks: map<string, nat>, rounds: nat)
    requires AfterRounds(g, ranks, rounds)
    ensures AfterRounds(g, WithRank(ranks, Ready(Left(g, ranks.Keys)), rounds), rounds + 1)
  {
    hide Settled, Waited, Left, Ready, WithRank;
    var ready := Ready(Left(g, ranks.Keys));
    var next := WithRank(ranks, ready, rounds);
    forall x | x in next
      ensures Settled(g, next, x)
    {
      if x in ready { ReadyIsSettled(g, ranks, rounds, x); } else { SettledStays(g, ranks, ready, rounds, x); }
    }
    forall x | x in g.Keys - next.Keys
      ensures Waited(g, next, rounds + 1, x)
    {
      LeftWaited(g, ranks, rounds, x);
    }
  }

  // ---------- When the rounds get stuck ----------

  ghost predicate RequiresOneOf(g: Graph, keys: set<string>, x: string) {
    exists y :: y in keys && Edge(g, x, y)
  }

  /** Everything in the set requires something in the set. */
  ghost predicate Stuck(g: Graph, keys: set<string>) {
    keys != {} && forall x {:trigger RequiresOneOf(g, keys, x)} :: x in keys ==> RequiresOneOf(g, keys, x)
  }

  lemma {:induction false} LongWalk(g: Graph, stuck: set<string>, n: nat) returns (path: seq<string>)
    requires Stuck(g, stuck)
    ensures |path| == n + 2 && Walk(g, path) && forall i :: 0 <= i < |path| ==> path[i] in stuck
  {
    hide Edge;
    if n == 0 {
      var x :| x in stuck;
      assert RequiresOneOf(g, stuck, x);
      var y :| y in stuck && Edge(g, x, y);
      path := [x, y];
      assert StepAt(g, path, 0);
    } else {
      var front := LongWalk(g, stuck, n - 1);
      assert RequiresOneOf(g, stuck, front[n]);
      var y :| y in stuck && Edge(g, front[n], y);
      path := front + [y];
      forall i | 0 <= i < |path| - 1
        ensures StepAt(g, path, i)
      {
        if i < n { assert StepAt(g, front, i); }
      }
    }
  }

  /** More places than keys: some key is visited twice. */
  lemma {:induction false} VisitedTwice(path: seq<string>, keys: set<string>) returns (i: nat, j: nat)
    requires |path| > |keys| && forall k :: 0 <= k < |path| ==> path[k] in keys
    ensures i < j < |path| && path[i] == path[j]
  {
    var last := path[|path| - 1];
    var front := path[..|path| - 1];
    if k :| 0 <= k < |front| && front[k] == last {
      i, j := k, |path| - 1;
    } else {
      assert |keys - {last}| == |keys| - 1;
      i, j := VisitedTwice(front, keys - {last});
    }
  }

  lemma SegmentReaches(g: Graph, path: seq<string>, i: nat, j: nat)
    requires Walk(g, path) && i < j < |path|
    ensures Reaches(g, path[i], path[j])
  {
    hide Edge;
    var part := path[i..j + 1];
    forall k | 0 <= k < |part| - 1
      ensures StepAt(g, part, k)
    {
      assert StepAt(g, path, i + k);
    }
    assert Walk(g, part) && part[0] == path[i] && part[|part| - 1] == path[j];
  }

  lemma StuckIsCyclic(g: Graph, stuck: set<string>)
    requires Stuck(g, stuck)
    ensures Cyclic(g)
  {
    hide Stuck, Walk, Reaches;
    var path := LongWalk(g, stuck, |stuck|);
    var i, j := VisitedTwice(path, stuck);
    SegmentReaches(g, path, i, j);
  }

  /** When nothing is ready, what is left is stuck, or waits for a key that does not exist. */
  lemma NothingReady(g: Graph, done: set<string>)
    requires Left(g, done) != map[] && Ready(Left(g, done)) == {}
    ensures Cyclic(g) || Dangling(g)
  {
    hide Cyclic, Left, Ready;
    var left := Left(g, done);
    if !Dangling(g) {
      forall x | x in left.Keys
        ensures RequiresOneOf(g, left.Keys, x)
      {
        assert x !in Ready(left);
        var y :| y in left[x];
        assert Edge(g, x, y) && y in left.Keys;
      }
      StuckIsCyclic(g, left.Keys);
    }
  }

  lemma AllDone(g: Graph, ranks: map<string, nat>, rounds: nat)
    requires AfterRounds(g, ranks, rounds) && Left(g, ranks.Keys) == map[]
    ensures Ranked(g, ranks) && ranks.Keys == g.Keys
  {
    hide Settled, Waited, Left;
    assert g.Keys - ranks.Keys == Left(g, ranks.Keys).Keys == {};
  }

  // ---------- The two loops ----------

  /** The keys of a round leave: nobody waits for them any more. */
  function Leave(remaining: Graph, ready: set<string>): Graph {
    map x | x in remaining.Keys - ready :: remaining[x] - ready
  }

  lemma FewerLeft(g: Graph, done: set<string>, remaining: Graph, ready: set<string>)
    requires remaining == Left(g, done) && ready <= remaining.Keys && ready != {}
    ensures Leave(remaining, ready) == Left(g, done + ready) && |Leave(remaining, ready).Keys| < |remaining.Keys|
  {
    hide Left;
    var left, next := Leave(remaining, ready), Left(g, done + ready);
    assert left.Keys == next.Keys;
    forall x | x in left
      ensures left[x] == next[x]
    {
      assert remaining[x] == g[x] - done;
      assert (g[x] - done) - ready == g[x] - (done + ready);
    }
    FewerKeys(remaining.Keys, ready);
    assert left.Keys == remaining.Keys - ready;
  }

  lemma FewerKeys(keys: set<string>, some: set<string>)
    requires some <= keys && some != {}
    ensures |keys - some| < |keys|
  {
    assert keys == (keys - some) + some;
  }

  /** The ranks of a graph, or nothing exactly when it has a cycle or requires a key it does not have. */
  method TopologicalRanks(g: Graph) returns (ranks: Option<map<string, nat>>)
    ensures ranks.None? <==> Cyclic(g) || Dangling(g)
    ensures ranks.Some? ==> Ranked(g, ranks.value)
  {
    hide Cyclic, Dangling, Ranked, AfterRounds, Left, Ready, Leave, WithRank;
    var remaining: Graph, found: map<string, nat>, rank := g, map[], 0;
    NoRounds(g, found);
    while remaining != map[]
      invariant AfterRounds(g, found, rank) && remaining == Left(g, found.Keys)
      decreases |remaining.Keys|
    {
      var ready := Ready(remaining);
      if ready == {} {
        NothingReady(g, found.Keys);
        return None;
      }
      OneMoreRound(g, found, rank);
      FewerLeft(g, found.Keys, remaining, ready);
      remaining := Leave(remaining, ready);
      found := WithRank(found, ready, rank);
      rank := rank + 1;
    }
    AllDone(g, found, rank);
    RankedIsSound(g, found);
    return Some(found);
  }

  /** The list has every key of the set exactly once. */
  ghost predicate Lists(list: seq<string>, keys: set<string>) {
    && (forall x :: x in list <==> x in keys)
    && (forall i, j :: 0 <= i < j < |list| ==> list[i] != list[j])
  }

  /** What `sort` does with a set of keys, for the comparison of the chosen ordering. */
  type Sorting = set<string> -> seq<string>

  /** The comparison: which of two keys comes first when nothing else decides. */
  type Comparison = (string, string) -> bool

  ghost predicate Sorts(sort: Sorting, first: Comparison) {
    forall keys :: Lists(sort(keys), keys) && InOrder(sort(keys), first)
  }

  ghost predicate InOrder(list: seq<string>, first: Comparison) {
    forall i, j :: 0 <= i < j < |list| ==> first(list[i], list[j])
  }

  /** Lower ranks come first, and the comparison decides among equal ones. */
  ghost predicate ByRank(order: seq<string>, ranks: map<string, nat>, first: Comparison) {
    forall i, j :: 0 <= i < j < |order| ==>
      && order[i] in ranks && order[j] in ranks && ranks[order[i]] <= ranks[order[j]]
      && (ranks[order[i]] == ranks[order[j]] ==> first(order[i], order[j]))
  }

  lemma LayerAppended(
      order: seq<string>, ranks: map<string, nat>, ready: set<string>, rank: nat, layer: seq<string>, first: Comparison)
    requires Lists(order, ranks.Keys) && ByRank(order, ranks, first) && forall x :: x in ranks ==> ranks[x] < rank
    requires Lists(layer, ready) && InOrder(layer, first) && ready !! ranks.Keys
    ensures Lists(order + layer, WithRank(ranks, ready, rank).Keys)
    ensures ByRank(order + layer, WithRank(ranks, ready, rank), first)
  {
    hide WithRank;
    var next, all := WithRank(ranks, ready, rank), order + layer;
    forall i, j | 0 <= i < j < |all|
      ensures all[i] != all[j] && all[i] in next && all[j] in next && next[all[i]] <= next[all[j]]
      ensures next[all[i]] == next[all[j]] ==> first(all[i], all[j])
    {
      if i < |order| { assert all[i] in order; } else { assert all[i] == layer[i - |order|] && all[i] in layer; }
      if j < |order| { assert all[j] in order; } else { assert all[j] == layer[j - |order|] && all[j] in layer; }
    }
  }

  /**
   * All keys, each once, by rank and within a rank by comparison; or nothing exactly when the requirements have a
   * cycle or name a key that is not there.
   */
  method OrderKeys(required: Graph, sort: Sorting, ghost first: Comparison)
    returns (order: Option<seq<string>>, ghost ranks: map<string, nat>)
    requires Sorts(sort, first)
    ensures order.None? <==> Cyclic(required) || Dangling(required)
    ensures order.Some? ==> Ranked(required, ranks) && Lists(order.value, required.Keys)
                            && ByRank(order.value, ranks, first)
  {
    hide Cyclic, Dangling, Ranked, AfterRounds, Left, Ready, Leave, WithRank, Lists, ByRank, InOrder, Sorts;
    var remaining: Graph, keys: seq<string> := required, [];
    ghost var rank := 0;
    ranks := map[];
    NoRounds(required, ranks);
    NothingListed(ranks, first);
    while remaining != map[]
      invariant AfterRounds(required, ranks, rank) && remaining == Left(required, ranks.Keys)
      invariant Lists(keys, ranks.Keys) && ByRank(keys, ranks, first)
      decreases |remaining.Keys|
    {
      var ready := Ready(remaining);
      if ready == {} {
        NothingReady(required, ranks.Keys);
        return None, ranks;
      }
      OneMoreRound(required, ranks, rank);
      RanksBelow(required, ranks, rank);
      SortedLayer(sort, first, ready);
      LayerAppended(keys, ranks, ready, rank, sort(ready), first);
      keys := keys + sort(ready);
      FewerLeft(required, ranks.Keys, remaining, ready);
      remaining := Leave(remaining, ready);
      ranks := WithRank(ranks, ready, rank);
      rank := rank + 1;
    }
    AllDone(required, ranks, rank);
    RankedIsSound(required, ranks);
    order := Some(keys);
  }

  lemma NothingListed(ranks: map<string, nat>, first: Comparison)
    requires ranks == map[]
    ensures Lists([], ranks.Keys) && ByRank([], ranks, first)
  {
  }

  lemma RanksBelow(g: Graph, ranks: map<string, nat>, rounds: nat)
    requires AfterRounds(g, ranks, rounds)
    ensures forall x :: x in ranks ==> ranks[x] < rounds
  {
    hide Settled, Waited;
  }

  lemma SortedLayer(sort: Sorting, first: Comparison, keys: set<string>)
    requires Sorts(sort, first)
    ensures Lists(sort(keys), keys) && InOrder(sort(keys), first)
  {
    hide Lists, InOrder;
  }

  // ---------- Descendants ----------

  /** Which nodes depend on a node directly. */
  function Dependents(dependencies: Graph): (dependents: Graph)
    ensures dependents.Keys == dependencies.Keys
    ensures forall x :: x in dependents ==> forall y :: y in dependents[x] <==> Edge(dependencies, y, x)
  {
    map x | x in dependencies.Keys :: set y | y in dependencies.Keys && x in dependencies[y]
  }

  predicate ClosedUnder(g: Graph, keys: set<string>) {
    forall x :: x in g && x in keys ==> g[x] <= keys
  }

  /**
   * Depth first, never visiting a key twice. All that was found new can be reached from the key, and what any of it
   * leads to has been found too.
   */
  method DescendantsFor(key: string, dependents: Graph, seen: set<string>) returns (all: set<string>)
    requires ClosedUnder(dependents, dependents.Keys) && seen <= dependents.Keys && key in dependents
    ensures seen <= all <= dependents.Keys && dependents[key] <= all
    ensures forall x :: x in all - seen ==> Reaches(dependents, key, x) && dependents[x] <= all
    decreases |dependents.Keys - seen|
  {
    hide Reaches;
    all := seen;
    var children := dependents[key];
    while children != {}
      invariant children <= dependents[key] <= children + all
      invariant seen <= all <= dependents.Keys
      invariant forall x :: x in all - seen ==> Reaches(dependents, key, x) && dependents[x] <= all
      decreases |children|
    {
      var child :| child in children;
      children := children - {child};
      if child !in all {
        ghost var before := all;
        FewerUnseen(dependents.Keys, seen, all, child);
        all := DescendantsFor(child, dependents, all + {child});
        EdgeReaches(dependents, key, child);
        forall x | x in all - seen
          ensures Reaches(dependents, key, x) && dependents[x] <= all
        {
          if x !in before && x != child { ReachesIsTransitive(dependents, key, child, x); }
        }
      }
    }
  }

  lemma FewerUnseen(keys: set<string>, seen: set<string>, all: set<string>, child: string)
    requires seen <= all <= keys && child in keys && child !in all
    ensures |keys - (all + {child})| < |keys - seen|
  {
    FewerKeys(keys - seen, (all - seen) + {child});
    assert keys - seen - ((all - seen) + {child}) == keys - (all + {child});
  }

  lemma {:induction false} WalksStayInside(g: Graph, keys: set<string>, path: seq<string>, i: nat)
    requires Walk(g, path) && 0 < i < |path| && path[0] in g && g[path[0]] <= keys && ClosedUnder(g, keys)
    ensures path[i] in keys
  {
    assert StepAt(g, path, i - 1);
    if i > 1 { WalksStayInside(g, keys, path, i - 1); }
  }

  /** What a search from nothing finds is exactly what can be reached. */
  lemma FoundExactly(g: Graph, key: string, all: set<string>)
    requires key in g && g[key] <= all && ClosedUnder(g, all)
    requires forall x :: x in all ==> Reaches(g, key, x)
    ensures forall x :: x in all <==> Reaches(g, key, x)
  {
    forall x | Reaches(g, key, x)
      ensures x in all
    {
      var path :| Walk(g, path) && path[0] == key && path[|path| - 1] == x;
      WalksStayInside(g, all, path, |path| - 1);
    }
  }

  /** What depends on a key, directly or not, is what can be reached from it through dependents. */
  lemma DependentsReverse(dependencies: Graph, x: string, y: string)
    requires !Dangling(dependencies)
    ensures Reaches(Dependents(dependencies), x, y) <==> Reaches(dependencies, y, x)
  {
    var dependents := Dependents(dependencies);
    if path :| Walk(dependents, path) && path[0] == x && path[|path| - 1] == y {
      Reversed(dependents, dependencies, path);
    }
    if path :| Walk(dependencies, path) && path[0] == y && path[|path| - 1] == x {
      Reversed(dependencies, dependents, path);
    }
  }

  lemma Reversed(g: Graph, h: Graph, path: seq<string>)
    requires Walk(g, path) && forall x, y :: Edge(g, x, y) ==> Edge(h, y, x)
    ensures Reaches(h, path[|path| - 1], path[0])
  {
    hide Edge;
    var back := seq(|path|, i requires 0 <= i < |path| => path[|path| - 1 - i]);
    forall i | 0 <= i < |back| - 1
      ensures StepAt(h, back, i)
    {
      assert StepAt(g, path, |path| - 2 - i);
      StepReversed(g, h, path, back, i);
    }
    assert Walk(h, back) && back[0] == path[|path| - 1] && back[|back| - 1] == path[0];
  }

  lemma StepReversed(g: Graph, h: Graph, path: seq<string>, back: seq<string>, i: nat)
    requires |back| == |path| && i < |back| - 1 && StepAt(g, path, |path| - 2 - i)
    requires back[i] == path[|path| - 1 - i] && back[i + 1] == path[|path| - 2 - i]
    requires forall x, y :: Edge(g, x, y) ==> Edge(h, y, x)
    ensures StepAt(h, back, i)
  {
  }

  // ---------- The plan ----------

  const MAXIMUM_PLAN_STEPS := 1000

  datatype Plan = GraphInvalid | LimitExceeded | Planned(order: seq<string>)

  /** The other keys a compensation declares that it comes after. */
  function Declared(explicit: Graph, key: string): set<string> {
    if key in explicit then explicit[key] - {key} else {}
  }

  /** What has to be compensated before each candidate: everything that depends on it, and what it declares itself. */
  ghost function Required(dependencies: Graph, candidates: set<string>, explicit: Graph): (required: Graph)
    ensures required.Keys == candidates
    ensures forall key, x :: Edge(required, key, x)
              <==> key in candidates && x in candidates
                   && (Reaches(dependencies, x, key) || (x != key && Edge(explicit, key, x)))
  {
    map key | key in candidates ::
      set x | x in candidates && (Reaches(dependencies, x, key) || (x != key && Edge(explicit, key, x)))
  }

  lemma RequiredIsClosed(dependencies: Graph, candidates: set<string>, explicit: Graph)
    ensures !Dangling(Required(dependencies, candidates, explicit))
  {
    hide Reaches;
  }

  /** The order of a plan: every candidate once, and what depends on something else, or is declared first, before it. */
  ghost predicate CompensatesInOrder(
      dependencies: Graph, candidates: set<string>, explicit: Graph, order: seq<string>)
  {
    && Lists(order, candidates)
    && (forall i, j :: 0 <= i < |order| && 0 <= j < |order| && Reaches(dependencies, order[i], order[j]) ==> i < j)
    && (forall i, j :: 0 <= i < |order| && 0 <= j < |order| && i != j && Edge(explicit, order[j], order[i]) ==> i < j)
  }

  lemma RankedOrderCompensates(
      dependencies: Graph, candidates: set<string>, explicit: Graph, order: seq<string>, ranks: map<string, nat>,
      first: Comparison)
    requires Ranked(Required(dependencies, candidates, explicit), ranks)
    requires Lists(order, candidates) && ByRank(order, ranks, first)
    ensures CompensatesInOrder(dependencies, candidates, explicit, order)
  {
    hide Reaches, Required;
    var required := Required(dependencies, candidates, explicit);
    forall i, j | 0 <= i < |order| && 0 <= j < |order|
                  && (Reaches(dependencies, order[i], order[j]) || (i != j && Edge(explicit, order[j], order[i])))
      ensures i < j
    {
      assert order[i] in candidates && order[j] in candidates;
      assert i == j || order[i] != order[j];
      assert Edge(required, order[j], order[i]) && Settled(required, ranks, order[j]);
    }
  }

  /**
   * Every candidate is compensated exactly once, after everything that depends on it and everything it declares; among
   * those free to go at the same round the comparison decides. A plan is refused exactly when the definition has a
   * cycle or an unknown dependency, there are too many candidates, or the requirements among them have a cycle.
   */
  method CompensationSteps(
      dependencies: Graph, candidates: set<string>, explicit: Graph, sort: Sorting, ghost first: Comparison)
    returns (plan: Plan, ghost ranks: map<string, nat>)
    requires candidates <= dependencies.Keys && Sorts(sort, first)
    ensures plan.GraphInvalid?
            <==> Cyclic(dependencies) || Dangling(dependencies)
                 || (|candidates| <= MAXIMUM_PLAN_STEPS && Cyclic(Required(dependencies, candidates, explicit)))
    ensures plan.LimitExceeded?
            <==> !Cyclic(dependencies) && !Dangling(dependencies) && |candidates| > MAXIMUM_PLAN_STEPS
    ensures plan.Planned? ==>
              && CompensatesInOrder(dependencies, candidates, explicit, plan.order)
              && Ranked(Required(dependencies, candidates, explicit), ranks)
              && ByRank(plan.order, ranks, first)
  {
    hide Cyclic, Dangling, Ranked, Required, Reaches, Lists, ByRank, Sorts, CompensatesInOrder;
    ranks := map[];
    var topology := TopologicalRanks(dependencies);
    if topology.None? { return GraphInvalid, ranks; }
    if |candidates| > MAXIMUM_PLAN_STEPS { return LimitExceeded, ranks; }
    var remaining := RequirementsOf(dependencies, candidates, explicit);
    RequiredIsClosed(dependencies, candidates, explicit);
    var order;
    order, ranks := OrderKeys(remaining, sort, first);
    if order.None? { return GraphInvalid, ranks; }
    RankedOrderCompensates(dependencies, candidates, explicit, order.value, ranks, first);
    plan := Planned(order.value);
  }

  method RequirementsOf(dependencies: Graph, candidates: set<string>, explicit: Graph) returns (remaining: Graph)
    requires candidates <= dependencies.Keys && !Dangling(dependencies)
    ensures remaining == Required(dependencies, candidates, explicit)
  {
    hide Reaches, Dependents, Required, Declared;
    var dependents := Dependents(dependencies);
    DependentsAreClosed(dependencies);
    var left := candidates;
    remaining := map[];
    ghost var required := Required(dependencies, candidates, explicit);
    while left != {}
      invariant left <= candidates && remaining.Keys == candidates - left
      invariant forall key :: key in remaining ==> remaining[key] == required[key]
      decreases |left|
    {
      var nodeKey :| nodeKey in left;
      var descendants := DescendantsFor(nodeKey, dependents, {});
      DescendantsDepend(dependencies, nodeKey, descendants);
      remaining := remaining[nodeKey := (descendants + Declared(explicit, nodeKey)) * candidates];
      RequirementExactly(dependencies, candidates, explicit, nodeKey, descendants);
      left := left - {nodeKey};
    }
  }

  lemma RequirementExactly(
      dependencies: Graph, candidates: set<string>, explicit: Graph, key: string, descendants: set<string>)
    requires key in candidates && forall x :: x in descendants <==> Reaches(dependencies, x, key)
    ensures (descendants + Declared(explicit, key)) * candidates == Required(dependencies, candidates, explicit)[key]
  {
    hide Reaches;
    forall x
      ensures x in (descendants + Declared(explicit, key)) * candidates
              <==> x in Required(dependencies, candidates, explicit)[key]
    {
    }
  }

  lemma DependentsAreClosed(dependencies: Graph)
    ensures ClosedUnder(Dependents(dependencies), Dependents(dependencies).Keys)
  {
  }

  lemma DescendantsDepend(dependencies: Graph, key: string, descendants: set<string>)
    requires !Dangling(dependencies) && key in dependencies
    requires Dependents(dependencies)[key] <= descendants && ClosedUnder(Dependents(dependencies), descendants)
    requires forall x :: x in descendants ==> Reaches(Dependents(dependencies), key, x)
    ensures forall x :: x in descendants <==> Reaches(dependencies, x, key)
  {
    hide Dependents, Reaches, Dangling;
    FoundExactly(Dependents(dependencies), key, descendants);
    forall x
      ensures Reaches(Dependents(dependencies), key, x) <==> Reaches(dependencies, x, key)
    {
      DependentsReverse(dependencies, key, x);
    }
  }

  // ---------- When no plan is refused ----------

  /** No candidate declares that it comes after another candidate; after itself it may. */
  ghost predicate NothingDeclared(candidates: set<string>, explicit: Graph) {
    forall x, y :: x in candidates && y in candidates && Edge(explicit, x, y) ==> x == y
  }

  lemma {:induction false} RequirementWalksDepend(
      dependencies: Graph, candidates: set<string>, explicit: Graph, path: seq<string>, i: nat)
    requires NothingDeclared(candidates, explicit)
    requires Walk(Required(dependencies, candidates, explicit), path) && 0 < i < |path|
    ensures Reaches(dependencies, path[i], path[0])
  {
    hide Reaches, Required;
    assert StepAt(Required(dependencies, candidates, explicit), path, i - 1);
    if i > 1 {
      RequirementWalksDepend(dependencies, candidates, explicit, path, i - 1);
      ReachesIsTransitive(dependencies, path[i], path[i - 1], path[0]);
    }
  }

  /** Only what compensations declare themselves can make a plan for a proper definition impossible. */
  lemma NothingDeclaredNothingRefused(dependencies: Graph, candidates: set<string>, explicit: Graph)
    requires !Cyclic(dependencies) && NothingDeclared(candidates, explicit)
    ensures !Cyclic(Required(dependencies, candidates, explicit))
  {
    hide Required;
    if x :| Reaches(Required(dependencies, candidates, explicit), x, x) {
      var path :| Walk(Required(dependencies, candidates, explicit), path) && path[0] == x && path[|path| - 1] == x;
      RequirementWalksDepend(dependencies, candidates, explicit, path, |path| - 1);
    }
  }

  /** A candidate that names only itself waits for nothing on that account. */
  lemma NamingOneselfIsIgnored(dependencies: Graph, candidates: set<string>, key: string)
    requires !Cyclic(dependencies)
    ensures !Cyclic(Required(dependencies, candidates, map[key := {key}]))
  {
    NothingDeclaredNothingRefused(dependencies, candidates, map[key := {key}]);
  }

  /** Two candidates that name each other are refused, as is one that names a candidate depending on what it undoes. */
  lemma ContradictionsAreRefused(dependencies: Graph, candidates: set<string>, explicit: Graph, x: string, y: string)
    requires x in candidates && y in candidates && x != y && Edge(explicit, x, y)
    requires Edge(explicit, y, x) || Reaches(dependencies, x, y)
    ensures Cyclic(Required(dependencies, candidates, explicit))
  {
    var required := Required(dependencies, candidates, explicit);
    hide Required, Reaches;
    EdgeReaches(required, x, y);
    EdgeReaches(required, y, x);
    ReachesIsTransitive(required, x, y, x);
  }

  /** A dependency on a node that does not exist is refused as if it were a cycle. */
  lemma UnknownDependencyHasNoCycle() returns (dependencies: Graph)
    ensures Dangling(dependencies) && !Cyclic(dependencies)
  {
    dependencies := map["a" := {"b"}];
    assert Edge(dependencies, "a", "b");
    if x :| Reaches(dependencies, x, x) {
      var path :| Walk(dependencies, path) && path[0] == x && path[|path| - 1] == x;
      assert StepAt(dependencies, path, 0) && StepAt(dependencies, path, |path| - 2);
    }
  }
}
