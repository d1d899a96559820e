/** Runs of a transition table, and what every run of a table with a certain shape must do. */
module Lifecycle {

  datatype Check<S> = Permitted | Refused(from: S, to: S)

  /** The guard before every change of state. */
  function AssertTransition<S(==)>(next: S -> set<S>, from: S, to: S): Check<S> {
    if to in next(from) then Permitted else Refused(from, to)
  }

  /** A run: every step passes the guard. */
  predicate Run<S(==)>(next: S -> set<S>, run: seq<S>) {
    && run != []
    && forall i :: 0 <= i < |run| - 1 ==> AssertTransition(next, run[i], run[i + 1]).Permitted?
  }

  predicate Visits<S(==)>(run: seq<S>, gate: S, from: nat, to: nat) {
    exists k :: from <= k < to && k < |run| && run[k] == gate
  }

  /** A region that steps leave only through the gate. */
  ghost predicate LeavesOnlyThrough<S(!new)>(next: S -> set<S>, region: set<S>, gate: S) {
    forall s, t :: s in region && t in next(s) ==> t in region || t == gate
  }

  ghost predicate EnteredOnlyFrom<S(!new)>(next: S -> set<S>, target: S, sources: set<S>) {
    forall s :: target in next(s) ==> s in sources
  }

  /** A number that every step inside the region lowers. */
  ghost predicate Descends<S(!new)>(next: S -> set<S>, region: set<S>, rank: S -> nat) {
    forall s, t :: s in region && t in next(s) && t in region ==> rank(t) < rank(s)
  }

  /** No run that is in the state is ever in another one afterwards. */
  ghost predicate NeverLeft<S(!new)>(next: S -> set<S>, s: S) {
    forall run: seq<S>, i: nat, j: nat :: Run(next, run) && i <= j < |run| && run[i] == s ==> run[j] == s
  }

  /** Some run leads from one state to the other. */
  ghost predicate Reaches<S(!new)>(next: S -> set<S>, s: S, t: S) {
    exists run :: Run(next, run) && run[0] == s && run[|run| - 1] == t
  }

  lemma OutOfReach<S(!new)>(next: S -> set<S>, region: set<S>, s: S, t: S)
    requires forall u, v :: u in region && v in next(u) ==> v in region
    requires s in region && t !in region
    ensures !Reaches(next, s, t)
  {
    if run :| Run(next, run) && run[0] == s && run[|run| - 1] == t {
      Stays(next, region, run, 0, |run| - 1);
    }
  }

  /** A run that is in the region and later neither there nor at the gate has been at the gate in between. */
  lemma {:induction false} MustPass<S(!new)>(
      next: S -> set<S>, region: set<S>, gate: S, run: seq<S>, i: nat, j: nat)
    requires LeavesOnlyThrough(next, region, gate) && Run(next, run)
    requires i < j < |run| && run[i] in region && run[j] !in region
    ensures Visits(run, gate, i + 1, j + 1)
    decreases j - i
  {
    assert AssertTransition(next, run[i], run[i + 1]).Permitted?;
    if run[i + 1] != gate {
      MustPass(next, region, gate, run, i + 1, j);
      var k :| i + 2 <= k < j + 1 && run[k] == gate;
      assert i + 1 <= k;
    }
  }

  /** A region that steps never leave. */
  lemma {:induction false} Stays<S(!new)>(next: S -> set<S>, region: set<S>, run: seq<S>, i: nat, j: nat)
    requires forall s, t :: s in region && t in next(s) ==> t in region
    requires Run(next, run) && i <= j < |run| && run[i] in region
    ensures run[j] in region
    decreases j
  {
    if i < j {
      Stays(next, region, run, i, j - 1);
      assert AssertTransition(next, run[j - 1], run[j]).Permitted?;
    }
  }

  /** In a closed region with a descending rank, every step costs at least one. */
  lemma {:induction false} RankFalls<S(!new)>(
      next: S -> set<S>, region: set<S>, rank: S -> nat, run: seq<S>, i: nat, j: nat)
    requires forall s, t :: s in region && t in next(s) ==> t in region
    requires Descends(next, region, rank)
    requires Run(next, run) && i <= j < |run| && run[i] in region
    ensures run[j] in region && rank(run[j]) + (j - i) <= rank(run[i])
    decreases j
  {
    if i < j {
      RankFalls(next, region, rank, run, i, j - 1);
      assert AssertTransition(next, run[j - 1], run[j]).Permitted?;
    }
  }

  /** A state other than the first is entered from one of its sources. */
  lemma EnteredFrom<S(!new)>(next: S -> set<S>, target: S, sources: set<S>, run: seq<S>, j: nat)
    requires EnteredOnlyFrom(next, target, sources) && Run(next, run)
    requires 0 < j < |run| && run[j] == target
    ensures run[j - 1] in sources
  {
    assert AssertTransition(next, run[j - 1], run[j]).Permitted?;
  }

  /** A state is never left exactly when the table leads nowhere else from it. */
  lemma NeverLeftWhenNoExit<S(!new)>(next: S -> set<S>, s: S)
    ensures NeverLeft(next, s) <==> forall t :: t in next(s) ==> t == s
  {
    if forall t :: t in next(s) ==> t == s {
      forall run: seq<S>, i: nat, j: nat | Run(next, run) && i <= j < |run| && run[i] == s
        ensures run[j] == s
      {
        Stays(next, {s}, run, i, j);
      }
    } else {
      var t :| t in next(s) && t != s;
      var run := [s, t];
      assert Run(next, run) && run[0] == s && run[1] != s;
    }
  }

  /** Every state of the later phase comes after a visit to the gate. */
  ghost predicate OnlyAfter<S(!new)>(run: seq<S>, later: set<S>, gate: S) {
    forall m: nat :: m < |run| && run[m] in later ==> Visits(run, gate, 0, m)
  }

  /** Nobody takes the detour into the later phase before the gate was visited. */
  ghost predicate DetourOnlyAfter<S(!new)>(run: seq<S>, detour: S, later: set<S>, gate: S) {
    forall k: nat :: k + 1 < |run| && run[k] == detour && run[k + 1] in later ==> Visits(run, gate, 0, k)
  }

  /**
   * Where the later phase is entered only from the gate or by a detour, a run keeps the order exactly when it
   * does not take the detour too early.
   */
  lemma DetourDecides<S(!new)>(next: S -> set<S>, later: set<S>, gate: S, detour: S, run: seq<S>)
    requires forall s, t :: t in next(s) && t in later ==> s in later || s == gate || s == detour
    requires detour != gate && Run(next, run) && run[0] !in later
    ensures OnlyAfter(run, later, gate) <==> DetourOnlyAfter(run, detour, later, gate)
  {
    if DetourOnlyAfter(run, detour, later, gate) {
      forall m: nat | m < |run| && run[m] in later
        ensures Visits(run, gate, 0, m)
      {
        EntersInOrder(next, later, gate, detour, run, m);
      }
    }
    if OnlyAfter(run, later, gate) {
      forall k: nat | k + 1 < |run| && run[k] == detour && run[k + 1] in later
        ensures Visits(run, gate, 0, k)
      {
        var v :| 0 <= v < k + 1 && run[v] == gate;
        assert v < k;
      }
    }
  }

  lemma {:induction false} EntersInOrder<S(!new)>(
      next: S -> set<S>, later: set<S>, gate: S, detour: S, run: seq<S>, m: nat)
    requires forall s, t :: t in next(s) && t in later ==> s in later || s == gate || s == detour
    requires Run(next, run) && run[0] !in later && DetourOnlyAfter(run, detour, later, gate)
    requires m < |run| && run[m] in later
    ensures Visits(run, gate, 0, m)
  {
    assert AssertTransition(next, run[m - 1], run[m]).Permitted?;
    if run[m - 1] in later {
      EntersInOrder(next, later, gate, detour, run, m - 1);
      var v :| 0 <= v < m - 1 && run[v] == gate;
      assert v < m;
    } else if run[m - 1] == detour {
      assert (m - 1) + 1 < |run| && run[(m - 1) + 1] in later;
      var v :| 0 <= v < m - 1 && run[v] == gate;
      assert v < m;
    }
  }

  /** A run ends where the table leads nowhere. */
  lemma EndsWithoutExit<S(!new)>(next: S -> set<S>, run: seq<S>, j: nat)
    requires Run(next, run) && j < |run| && next(run[j]) == {}
    ensures j == |run| - 1
  {
    assert j < |run| - 1 ==> AssertTransition(next, run[j], run[j + 1]).Permitted?;
  }
}
