/** Reserving invocations under a delegation grant. */
module DelegationGrant {
  import opened Sequences

  datatype Status = Active | Exhausted | Revoked | Pending

  datatype Answer = Reserved(ordinal: int, replayed: bool) | GrantExhausted

  datatype Ledger = Ledger(limit: int, count: int, status: Status, reservations: map<string, int>)

  function AnswerTo(l: Ledger, key: string): Answer {
    if key in l.reservations then Reserved(l.reservations[key], true)
    else if l.count >= l.limit then GrantExhausted
    else Reserved(l.count + 1, false)
  }

  function AfterReserve(l: Ledger, key: string): Ledger {
    if key in l.reservations || l.count >= l.limit then l
    else l.(count := l.count + 1,
            reservations := l.reservations[key := l.count + 1],
            status := if l.count + 1 >= l.limit then Exhausted else l.status)
  }

  class Grant {
    const invocationLimit: int
    var invocationCount: int
    var status: Status
    var reservations: map<string, int>

    ghost function View(): Ledger
      reads this
    {
      Ledger(invocationLimit, invocationCount, status, reservations)
    }

    constructor (limit: int)
      ensures View() == Issued(limit)
    {
      invocationLimit := limit;
      invocationCount, status, reservations := 0, Active, map[];
    }

    method Reserve(key: string) returns (answer: Answer)
      modifies this
      ensures answer == AnswerTo(old(View()), key) && View() == AfterReserve(old(View()), key)
    {
      if key in reservations { return Reserved(reservations[key], true); }
      if invocationCount >= invocationLimit { return GrantExhausted; }
      invocationCount := invocationCount + 1;
      reservations := reservations[key := invocationCount];
      if invocationCount >= invocationLimit { status := Exhausted; }
      return Reserved(invocationCount, false);
    }
  }

  function Issued(limit: int): Ledger {
    Ledger(limit, 0, Active, map[])
  }

  function Reserving(l: Ledger, keys: seq<string>): Ledger {
    if keys == [] then l else AfterReserve(Reserving(l, keys[..|keys| - 1]), keys[|keys| - 1])
  }

  ghost predicate HasNumber(l: Ledger, key: string, n: int) {
    key in l.reservations && l.reservations[key] == n
  }

  ghost predicate Taken(l: Ledger, n: int) {
    exists key :: HasNumber(l, key, n)
  }

  /** The keys are numbered 1, 2, ..., count: each number belongs to exactly one key. */
  ghost predicate Numbered(l: Ledger) {
    && 0 <= l.count
    && (forall key :: key in l.reservations ==> 1 <= l.reservations[key] <= l.count)
    && (forall key, other, n :: HasNumber(l, key, n) && HasNumber(l, other, n) ==> key == other)
    && (forall n :: 1 <= n <= l.count ==> Taken(l, n))
  }

  ghost predicate Valid(l: Ledger) {
    && Numbered(l)
    && |l.reservations| == l.count
    && (l.limit > 0 ==> l.count <= l.limit)
    && (l.limit <= 0 ==> l.count == 0)
    && (l.status == Exhausted <==> l.count >= l.limit && l.limit > 0)
    && (l.status != Exhausted ==> l.status == Active)
  }

  lemma ReserveKeepsNumbers(l: Ledger, key: string)
    requires Numbered(l)
    ensures Numbered(AfterReserve(l, key))
  {
    var next := AfterReserve(l, key);
    if next != l {
      assert HasNumber(next, key, next.count);
      forall n | 1 <= n < next.count
        ensures Taken(next, n)
      {
        assert Taken(l, n);
        var k :| HasNumber(l, k, n);
        assert HasNumber(next, k, n);
      }
      forall k, other, n | HasNumber(next, k, n) && HasNumber(next, other, n)
        ensures k == other
      {
        if n < next.count { assert HasNumber(l, k, n) && HasNumber(l, other, n); }
      }
    }
  }

  /**
   * After any sequence of calls the reservations are a one-to-one numbering, never more than the limit, and the
   * grant is exhausted exactly when a positive limit is reached: with no positive limit it stays active and
   * every call is refused.
   */
  lemma {:induction false} EverySequenceIsValid(limit: int, keys: seq<string>)
    ensures Valid(Reserving(Issued(limit), keys))
  {
    if keys != [] {
      EverySequenceIsValid(limit, keys[..|keys| - 1]);
      ReserveKeepsNumbers(Reserving(Issued(limit), keys[..|keys| - 1]), keys[|keys| - 1]);
    }
  }

  /** How many of the different keys fit under the limit. */
  function Fitting(limit: int, keys: seq<string>): nat {
    var all := |Distinct(keys)|;
    if limit <= 0 then 0 else if limit < all then limit else all
  }

  ghost predicate FirstComeFirstServed(limit: int, keys: seq<string>, l: Ledger) {
    var firsts, n := Distinct(keys), Fitting(limit, keys);
    && l.limit == limit && l.count == n
    && (forall key :: key in l.reservations <==> key in firsts[..n])
    && (forall i :: 0 <= i < n ==> HasNumber(l, firsts[i], i + 1))
  }

  /** The first keys to come get the numbers, in order, until the limit is reached; no other key ever gets one. */
  lemma {:induction false} ReservedInOrder(limit: int, keys: seq<string>)
    ensures FirstComeFirstServed(limit, keys, Reserving(Issued(limit), keys))
  {
    if keys != [] {
      var front, last := keys[..|keys| - 1], keys[|keys| - 1];
      ReservedInOrder(limit, front);
      OneMoreInOrder(limit, front, last, Reserving(Issued(limit), front));
      assert keys == front + [last];
    }
  }

  lemma OneMoreInOrder(limit: int, keys: seq<string>, key: string, l: Ledger)
    requires FirstComeFirstServed(limit, keys, l)
    ensures FirstComeFirstServed(limit, keys + [key], AfterReserve(l, key))
  {
    DistinctGrows(keys, key);
    if key in keys {
      KnownKeyChangesNothing(limit, keys, key, l);
    } else if l.count < limit {
      NewKeyIsNumbered(limit, keys, key, l);
    } else {
      assert Distinct(keys + [key])[..l.count] == Distinct(keys)[..l.count];
    }
  }

  lemma DistinctGrows(keys: seq<string>, key: string)
    ensures Distinct(keys + [key]) == if key in keys then Distinct(keys) else Distinct(keys) + [key]
  {
    assert (keys + [key])[..|keys|] == keys;
  }

  /** A known key either has its number or came too late for one. */
  lemma KnownKeyChangesNothing(limit: int, keys: seq<string>, key: string, l: Ledger)
    requires FirstComeFirstServed(limit, keys, l) && key in keys
    ensures AfterReserve(l, key) == l
  {
    hide Distinct;
    var firsts := Distinct(keys);
    if l.count == |firsts| { assert firsts[..l.count] == firsts; }
  }

  lemma NewKeyIsNumbered(limit: int, keys: seq<string>, key: string, l: Ledger)
    requires FirstComeFirstServed(limit, keys, l) && key !in keys && l.count < limit
    requires Distinct(keys + [key]) == Distinct(keys) + [key]
    ensures FirstComeFirstServed(limit, keys + [key], AfterReserve(l, key))
  {
    hide Distinct;
    var before, after := Distinct(keys), Distinct(keys + [key]);
    assert l.count == |before| && before[..l.count] == before && after[..|after|] == after;
    var next := AfterReserve(l, key);
    forall i | 0 <= i < |after|
      ensures HasNumber(next, after[i], i + 1)
    {
      if i < |before| { assert HasNumber(l, before[i], i + 1) && before[i] != key; }
    }
  }

  /** A numbered key is replayed, a new one gets the next number while one is left, and others are refused. */
  lemma AnswersInOrder(limit: int, keys: seq<string>, key: string)
    ensures var answer := AnswerTo(Reserving(Issued(limit), keys), key);
            var firsts, n := Distinct(keys), Fitting(limit, keys);
            && n <= |firsts|
            && (forall i :: 0 <= i < n && firsts[i] == key ==> answer == Reserved(i + 1, true))
            && (key !in firsts[..n] && n < limit ==> key !in keys && answer == Reserved(|firsts| + 1, false))
            && (key !in firsts[..n] && n >= limit ==> answer == GrantExhausted)
  {
    hide Distinct;
    ReservedInOrder(limit, keys);
    var firsts, n := Distinct(keys), Fitting(limit, keys);
    if n < limit { assert firsts[..n] == firsts; }
    forall i | 0 <= i < n && firsts[i] == key
      ensures AnswerTo(Reserving(Issued(limit), keys), key) == Reserved(i + 1, true)
    {
      assert HasNumber(Reserving(Issued(limit), keys), firsts[i], i + 1);
    }
  }

  /**
   * An answer stands, however many calls come in between: a key keeps the number it was first told, and a key that
   * was refused is refused forever.
   */
  lemma {:induction false} AnswersStand(l: Ledger, key: string, between: seq<string>)
    ensures var first := AnswerTo(l, key);
            var later := Reserving(AfterReserve(l, key), between);
            && AnswerTo(later, key) == (if first.Reserved? then Reserved(first.ordinal, true) else GrantExhausted)
            && AfterReserve(later, key) == later
            && l.count <= later.count && (first.GrantExhausted? ==> later == l)
  {
    if between != [] { AnswersStand(l, key, between[..|between| - 1]); }
  }
}
