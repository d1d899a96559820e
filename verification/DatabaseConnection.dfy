/** The one connection to the database: connecting and disconnecting once at a time, and what is reported. */
module DatabaseConnection {
  import opened Wrappers

  /** The driver's own idea of the connection. */
  datatype Ready = ReadyDisconnected | ReadyConnected | ReadyConnecting | ReadyDisconnecting

  datatype Status = Disconnected | Connected | Connecting | Disconnecting | Unavailable | NotConfigured

  /** How far a connection attempt has come: opening, seeding the development partner, about to settle. */
  datatype Phase = Opening | Seeding | Settling(rejected: bool)

  /** The module's variables, the driver's state, and the promises that have not settled. */
  datatype State = State(
    databaseState: Status,
    connectPromise: Option<nat>,
    disconnectPromise: Option<nat>,
    intentionalDisconnect: bool,
    ready: Ready,
    attempts: map<nat, Phase>,
    disconnects: set<nat>,
    nextPromise: nat)

  datatype Settings = Settings(configured: bool, production: bool)

  datatype Event =
    | Connect
    | Disconnect
    | OperationSettles(attempt: nat, fulfilled: bool)
    | PartnerSettles(attempt: nat, fulfilled: bool)
    | AttemptSettles(attempt: nat)
    | DisconnectSettles(promise: nat)
    | DriverConnected
    | DriverDisconnected
    | DriverReconnected
    | DriverError
    | DriverMoves(ready: Ready)

  const INITIAL := State(Disconnected, None, None, false, ReadyDisconnected, map[], {}, 0)

  /** The promise a call of `connectDatabase` answers with; None when it is settled already. */
  function ConnectAnswer(s: State, env: Settings): Option<nat> {
    if !env.configured then None
    else if s.connectPromise.Some? then s.connectPromise
    else if s.ready == ReadyConnected then None
    else Some(s.nextPromise)
  }

  function AfterConnect(s: State, env: Settings): State {
    if !env.configured then s.(databaseState := NotConfigured)
    else if s.connectPromise.Some? then s
    else if s.ready == ReadyConnected then s.(databaseState := Connected)
    else s.(databaseState := Connecting, connectPromise := Some(s.nextPromise),
            attempts := s.attempts[s.nextPromise := Opening], nextPromise := s.nextPromise + 1)
  }

  function AfterDisconnect(s: State): State {
    if s.disconnectPromise.Some? then s
    else if s.ready == ReadyDisconnected then s.(databaseState := Disconnected)
    else s.(databaseState := Disconnecting, intentionalDisconnect := true, disconnectPromise := Some(s.nextPromise),
            disconnects := s.disconnects + {s.nextPromise}, nextPromise := s.nextPromise + 1)
  }

  function AfterOperation(s: State, env: Settings, attempt: nat, fulfilled: bool): State {
    if attempt !in s.attempts || s.attempts[attempt] != Opening then s
    else if fulfilled && s.ready == ReadyConnected
    then s.(databaseState := Connected, attempts := s.attempts[attempt := Seeding])
    else s.(databaseState := Unavailable, attempts := s.attempts[attempt := Settling(env.production)])
  }

  function AfterPartner(s: State, env: Settings, attempt: nat, fulfilled: bool): State {
    if attempt !in s.attempts || s.attempts[attempt] != Seeding then s
    else if fulfilled then s.(attempts := s.attempts[attempt := Settling(false)])
    else s.(databaseState := Unavailable, attempts := s.attempts[attempt := Settling(env.production)])
  }

  function AfterSettling(s: State, attempt: nat): State {
    if attempt !in s.attempts || !s.attempts[attempt].Settling? then s
    else s.(attempts := s.attempts - {attempt},
            connectPromise := if s.connectPromise == Some(attempt) then None else s.connectPromise)
  }

  function AfterDisconnectSettles(s: State, promise: nat): State {
    if promise !in s.disconnects then s
    else s.(databaseState := if s.ready == ReadyDisconnected then Disconnected else Unavailable,
            intentionalDisconnect := false,
            disconnects := s.disconnects - {promise},
            disconnectPromise := if s.disconnectPromise == Some(promise) then None else s.disconnectPromise)
  }

  function AfterDriverDisconnected(s: State): State {
    var expected := s.intentionalDisconnect || s.databaseState == Disconnecting || s.databaseState == Disconnected;
    s.(databaseState := if expected then Disconnected else Unavailable)
  }

  function Next(s: State, env: Settings, e: Event): State {
    match e
    case Connect => AfterConnect(s, env)
    case Disconnect => AfterDisconnect(s)
    case OperationSettles(attempt, fulfilled) => AfterOperation(s, env, attempt, fulfilled)
    case PartnerSettles(attempt, fulfilled) => AfterPartner(s, env, attempt, fulfilled)
    case AttemptSettles(attempt) => AfterSettling(s, attempt)
    case DisconnectSettles(promise) => AfterDisconnectSettles(s, promise)
    case DriverConnected => s.(databaseState := Connected)
    case DriverDisconnected => AfterDriverDisconnected(s)
    case DriverReconnected => s.(databaseState := Connected)
    case DriverError => if s.ready == ReadyConnected then s else s.(databaseState := Unavailable)
    case DriverMoves(ready) => s.(ready := ready)
  }

  function Run(s: State, env: Settings, events: seq<Event>): State {
    if events == [] then s else Next(Run(s, env, events[..|events| - 1]), env, events[|events| - 1])
  }

  /** `databaseStatus`. */
  function Reported(s: State): Status {
    match s.ready
    case ReadyConnected => Connected
    case ReadyConnecting => Connecting
    case ReadyDisconnecting => Disconnecting
    case ReadyDisconnected =>
      if s.databaseState == Connected || s.databaseState == Connecting then Unavailable else s.databaseState
  }

  // ---------- In every run ----------

  function Only(promise: Option<nat>): set<nat> {
    if promise.Some? then {promise.value} else {}
  }

  /** A promise is remembered exactly while the one attempt behind it is unfinished. */
  ghost predicate Valid(s: State, env: Settings) {
    && s.attempts.Keys == Only(s.connectPromise)
    && s.disconnects == Only(s.disconnectPromise)
    && (s.intentionalDisconnect <==> s.disconnectPromise.Some?)
    && (s.databaseState == Connecting ==> s.connectPromise.Some? && s.attempts[s.connectPromise.value] == Opening)
    && (s.databaseState == Disconnecting ==> s.disconnectPromise.Some?)
    && (s.databaseState == NotConfigured ==> !env.configured)
    && (s.connectPromise.Some? ==> env.configured)
    && (forall p :: p in s.attempts || p in s.disconnects ==> p < s.nextPromise)
    && (forall p :: p in s.attempts ==> (s.attempts[p] == Settling(true) ==> env.production))
  }

  lemma NextKeepsValid(s: State, env: Settings, e: Event)
    requires Valid(s, env)
    ensures Valid(Next(s, env, e), env)
  {
  }

  /** Whatever callers, attempts and the driver do, attempts never overlap and neither do disconnects. */
  lemma {:induction false} EveryRunIsValid(env: Settings, events: seq<Event>)
    ensures Valid(Run(INITIAL, env, events), env)
  {
    if events != [] {
      EveryRunIsValid(env, events[..|events| - 1]);
      NextKeepsValid(Run(INITIAL, env, events[..|events| - 1]), env, events[|events| - 1]);
    }
  }

  /** Callers that come before an attempt has settled join it: they get its promise and start nothing. */
  lemma {:induction false} CallersJoinTheAttempt(s: State, env: Settings, promise: nat, events: seq<Event>)
    requires Valid(s, env) && s.connectPromise == Some(promise)
    requires forall i :: 0 <= i < |events| ==> events[i] != AttemptSettles(promise)
    ensures var t := Run(s, env, events);
            && Valid(t, env) && t.connectPromise == Some(promise)
            && ConnectAnswer(t, env) == Some(promise) && Next(t, env, Connect) == t
  {
    if events != [] {
      var front, last := events[..|events| - 1], events[|events| - 1];
      assert last != AttemptSettles(promise);
      CallersJoinTheAttempt(s, env, promise, front);
      NextKeepsValid(Run(s, env, front), env, last);
    }
  }

  /**
   * The reported status is `connected` or `connecting` exactly when the driver says so; `disconnecting` only when
   * the driver is, or a disconnect is under way; `not_configured` only without a configuration.
   */
  lemma ReportedStatus(env: Settings, events: seq<Event>)
    ensures var s := Run(INITIAL, env, events);
            && (Reported(s) == Connected <==> s.ready == ReadyConnected)
            && (Reported(s) == Connecting <==> s.ready == ReadyConnecting)
            && (Reported(s) == Disconnecting ==> s.ready == ReadyDisconnecting || s.disconnectPromise.Some?)
            && (Reported(s) == NotConfigured ==> !env.configured)
            && (s.ready == ReadyDisconnecting ==> Reported(s) == Disconnecting)
            && (s.ready == ReadyDisconnected ==>
                  Reported(s) == if s.databaseState in {Connected, Connecting} then Unavailable else s.databaseState)
  {
    EveryRunIsValid(env, events);
  }

  // ---------- The module's functions and handlers ----------

  /**
   * The module as it runs: every call and every handler is one event of the machine, keeps its bookkeeping, and
   * tells its caller nothing but what is remembered.
   */
  class Connection {
    const env: Settings
    var state: State

    constructor (env: Settings)
      ensures this.env == env && state == INITIAL && Valid(state, env)
    {
      this.env := env;
      state := INITIAL;
    }

    /**
     * A promise that is answered is the remembered one and belongs to the only attempt; without a promise there is
     * no configuration, or the driver is connected and no attempt is under way.
     */
    method ConnectDatabase() returns (promise: Option<nat>)
      requires Valid(state, env)
      modifies this
      ensures state == Next(old(state), env, Connect) && Valid(state, env)
      ensures promise == ConnectAnswer(old(state), env)
      ensures promise.Some? ==> promise == state.connectPromise && state.attempts.Keys == {promise.value}
      ensures promise.None? ==> state.attempts == map[] && (env.configured ==> Reported(state) == Connected)
      ensures old(state).connectPromise.Some? ==> state == old(state)
    {
      if !env.configured {
        state := state.(databaseState := NotConfigured);
        return None;
      }
      if state.connectPromise.Some? { return state.connectPromise; }
      if state.ready == ReadyConnected {
        state := state.(databaseState := Connected);
        return None;
      }
      promise := BeginConnection();
    }

    /** The attempt started is the only one, under a number no promise had before. */
    method BeginConnection() returns (promise: Option<nat>)
      requires Valid(state, env) && env.configured && state.connectPromise.None?
      modifies this
      ensures Valid(state, env)
      ensures promise == Some(old(state).nextPromise) == state.connectPromise
      ensures state == old(state).(databaseState := Connecting, connectPromise := promise,
                                   attempts := map[promise.value := Opening], nextPromise := promise.value + 1)
    {
      var tracked := state.nextPromise;
      state := state.(databaseState := Connecting, nextPromise := tracked + 1);
      state := state.(attempts := state.attempts[tracked := Opening]);
      state := state.(connectPromise := Some(tracked));
      return Some(tracked);
    }

    /** A promise that is answered belongs to the only disconnect; without one the driver is disconnected. */
    method DisconnectDatabase() returns (promise: Option<nat>)
      requires Valid(state, env)
      modifies this
      ensures state == Next(old(state), env, Disconnect) && Valid(state, env)
      ensures promise.Some? ==> promise == state.disconnectPromise && state.disconnects == {promise.value}
      ensures promise.None? ==> state.disconnects == {} && Reported(state) == Disconnected
      ensures old(state).disconnectPromise.Some? ==> state == old(state)
    {
      if state.disconnectPromise.Some? { return state.disconnectPromise; }
      if state.ready == ReadyDisconnected {
        state := state.(databaseState := Disconnected);
        return None;
      }
      state := state.(intentionalDisconnect := true, databaseState := Disconnecting);
      var tracked := state.nextPromise;
      state := state.(disconnects := state.disconnects + {tracked}, nextPromise := tracked + 1);
      state := state.(disconnectPromise := Some(tracked));
      return Some(tracked);
    }

    /** Once a disconnect has settled none is under way, and it is not taken for more than the driver says. */
    method SettleDisconnect(promise: nat)
      requires Valid(state, env)
      modifies this
      ensures state == Next(old(state), env, DisconnectSettles(promise)) && Valid(state, env)
      ensures promise in old(state).disconnects ==>
                && state.disconnectPromise.None? && !state.intentionalDisconnect && state.disconnects == {}
                && (state.databaseState == Disconnected <==> state.ready == ReadyDisconnected)
    {
      if promise in state.disconnects {
        state := state.(databaseState := if state.ready == ReadyDisconnected then Disconnected else Unavailable);
        state := state.(intentionalDisconnect := false);
        if state.disconnectPromise == Some(promise) { state := state.(disconnectPromise := None); }
        state := state.(disconnects := state.disconnects - {promise});
      }
    }

    /** A loss of the connection is expected while a disconnect is under way, and unexpected while connected. */
    method HandleDisconnected()
      requires Valid(state, env)
      modifies this
      ensures state == Next(old(state), env, DriverDisconnected) && Valid(state, env)
      ensures state.disconnectPromise.Some? ==> state.databaseState == Disconnected
      ensures old(state).databaseState == Connected && state.disconnectPromise.None? ==>
                state.databaseState == Unavailable
    {
      var expectedDisconnect :=
        state.intentionalDisconnect || state.databaseState == Disconnecting || state.databaseState == Disconnected;
      state := state.(databaseState := if expectedDisconnect then Disconnected else Unavailable);
    }

    /** After the driver's answer the attempt is no longer opening: it goes on only if the driver is connected. */
    method CompleteConnection(attempt: nat, fulfilled: bool)
      requires Valid(state, env)
      modifies this
      ensures state == Next(old(state), env, OperationSettles(attempt, fulfilled)) && Valid(state, env)
      ensures attempt in state.attempts ==> state.attempts[attempt] != Opening
      ensures old(state).connectPromise == Some(attempt) ==> state.connectPromise == Some(attempt)
      ensures state != old(state) && state.attempts[attempt] == Seeding ==> Reported(state) == Connected
      ensures state != old(state) && state.attempts[attempt].Settling? ==>
                state.databaseState == Unavailable && state.attempts[attempt].rejected == env.production
    {
      if attempt in state.attempts && state.attempts[attempt] == Opening {
        if fulfilled && state.ready == ReadyConnected {
          state := state.(databaseState := Connected, attempts := state.attempts[attempt := Seeding]);
        } else {
          state := state.(databaseState := Unavailable,
                          attempts := state.attempts[attempt := Settling(env.production)]);
        }
      }
    }

    /** Once the development partner is seeded, or was not, the attempt settles; a failure rejects it in production. */
    method CompletePartner(attempt: nat, fulfilled: bool)
      requires Valid(state, env)
      modifies this
      ensures state == Next(old(state), env, PartnerSettles(attempt, fulfilled)) && Valid(state, env)
      ensures attempt in state.attempts ==> state.attempts[attempt] != Seeding
      ensures attempt in old(state).attempts && old(state).attempts[attempt] == Seeding ==>
                && state.connectPromise == Some(attempt)
                && state.attempts[attempt] == Settling(!fulfilled && env.production)
                && state.databaseState == if fulfilled then old(state).databaseState else Unavailable
      ensures !(attempt in old(state).attempts && old(state).attempts[attempt] == Seeding) ==> state == old(state)
    {
      if attempt in state.attempts && state.attempts[attempt] == Seeding {
        if fulfilled {
          state := state.(attempts := state.attempts[attempt := Settling(false)]);
        } else {
          state := state.(databaseState := Unavailable,
                          attempts := state.attempts[attempt := Settling(env.production)]);
        }
      }
    }

    /** An error of the driver makes the connection unavailable unless the driver is still connected. */
    method HandleConnectionError()
      requires Valid(state, env)
      modifies this
      ensures state == Next(old(state), env, DriverError) && Valid(state, env)
      ensures state.ready == old(state).ready && (Reported(state) == Connected <==> state.ready == ReadyConnected)
      ensures state.ready == ReadyConnected ==> state == old(state)
      ensures state.ready == ReadyDisconnected ==> Reported(state) == Unavailable
    {
      if state.ready != ReadyConnected { state := state.(databaseState := Unavailable); }
    }

    /** An attempt's cleanup leaves none, and the next call starts afresh; callers see it fail only in production. */
    method SettleAttempt(attempt: nat) returns (rejected: bool)
      requires Valid(state, env)
      modifies this
      ensures state == Next(old(state), env, AttemptSettles(attempt)) && Valid(state, env)
      ensures rejected <==> attempt in old(state).attempts && old(state).attempts[attempt] == Settling(true)
      ensures rejected ==> env.production
      ensures state != old(state) ==> state.connectPromise.None? && state.attempts == map[]
    {
      if attempt !in state.attempts || !state.attempts[attempt].Settling? { return false; }
      rejected := state.attempts[attempt].rejected;
      if state.connectPromise == Some(attempt) { state := state.(connectPromise := None); }
      state := state.(attempts := state.attempts - {attempt});
    }
  }
}
