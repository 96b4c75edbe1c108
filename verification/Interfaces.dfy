/** The interface runtime of the single worker process: wrappers that cache a status beside the
    database rows. Connects and connection checks are inputs with arbitrary results. */
module Interfaces {
  import opened Prelude

  type InterfaceId = nat

  datatype Kind = Mqtt | Serial | Tcp

  datatype Status = Init | Connecting | Running | Stopped | Failed

  datatype Row = Row(kind: Kind, enabled: bool, status: Status)

  /** `kind` and `status` are the wrapper's own copy of the row. */
  datatype Wrapper = Wrapper(kind: Kind, status: Status)

  datatype State = State(rows: map<InterfaceId, Row>, wrappers: map<InterfaceId, Wrapper>)

  /** One answer of `is_connected`. */
  datatype Check = Up | Down | Raises

  datatype Error = NotFound | Disabled | AlreadyRunning | AlreadyStopped | NotMqtt | NotRunning | NotConnected

  /** Every wrapper's cached status is the status of its row. */
  ghost predicate Coherent(s: State) {
    forall id | id in s.wrappers :: id in s.rows && s.wrappers[id].status == s.rows[id].status
  }

  /** `reset_interfaces_to_init`. */
  function Reset(rows: map<InterfaceId, Row>): map<InterfaceId, Row> {
    map id | id in rows :: rows[id].(status := if rows[id].enabled then Init else Stopped)
  }

  /** `load_enabled_interfaces` up to the default row it creates when it has loaded nothing. */
  function Loaded(s: State): State {
    var rows := Reset(s.rows);
    State(rows, map id | id in s.wrappers.Keys + (set i | i in rows && rows[i].enabled)
                  :: if id in s.wrappers then s.wrappers[id] else Wrapper(rows[id].kind, rows[id].status))
  }

  // ------------------------------------------------------------ operations on values

  /** The status write of `RuntimeInterfaceWrapper.start` and `stop`: cached copy and row together. */
  function WithStatus(s: State, id: InterfaceId, status: Status): State
    requires id in s.wrappers && id in s.rows
  {
    State(s.rows[id := s.rows[id].(status := status)], s.wrappers[id := s.wrappers[id].(status := status)])
  }

  /** Of the two states, only the status of one interface differs; row and wrapper agree on it. */
  predicate OnlyStatus(before: State, after: State, id: InterfaceId)
    requires id in before.wrappers && id in before.rows
  {
    && after.rows.Keys == before.rows.Keys && after.wrappers.Keys == before.wrappers.Keys
    && (forall k | k in before.rows && k != id :: after.rows[k] == before.rows[k])
    && (forall k | k in before.wrappers && k != id :: after.wrappers[k] == before.wrappers[k])
    && after.rows[id].kind == before.rows[id].kind && after.rows[id].enabled == before.rows[id].enabled
    && after.wrappers[id].kind == before.wrappers[id].kind
    && after.wrappers[id].status == after.rows[id].status
  }

  lemma OnlyStatusIs(before: State, after: State, id: InterfaceId)
    requires id in before.wrappers && id in before.rows && OnlyStatus(before, after, id)
    ensures after == WithStatus(before, id, after.wrappers[id].status)
  {
    var t := WithStatus(before, id, after.wrappers[id].status);
    assert after.rows[id] == t.rows[id] && after.wrappers[id] == t.wrappers[id];
    assert after.rows == t.rows && after.wrappers == t.wrappers;
  }

  function Connected(ok: bool): Status {
    if ok then Running else Failed
  }

  /** A wrapper around a row as it is now. */
  function Wrapped(s: State, id: InterfaceId): State
    requires id in s.rows
  {
    s.(wrappers := s.wrappers[id := Wrapper(s.rows[id].kind, s.rows[id].status)])
  }

  function StartStatus(before: Status, ok: bool): Status {
    if before in {Running, Connecting} then before else Connected(ok)
  }

  function Started(s: State, ids: set<InterfaceId>, connects: set<InterfaceId>): State {
    State(map id | id in s.rows :: if id in s.wrappers && id in ids && s.wrappers[id].status !in {Running, Connecting}
                                   then s.rows[id].(status := Connected(id in connects)) else s.rows[id],
          map id | id in s.wrappers :: if id in ids then s.wrappers[id].(status := StartStatus(s.wrappers[id].status, id in connects)) else s.wrappers[id])
  }

  function Stop(s: State, ids: set<InterfaceId>): State {
    State(map id | id in s.rows :: if id in ids then s.rows[id].(status := Stopped) else s.rows[id],
          map id | id in s.wrappers :: if id in ids then s.wrappers[id].(status := Stopped) else s.wrappers[id])
  }

  /** The old wrapper is stopped and replaced; the new one runs only if the row is enabled. */
  function Reloaded(s: State, id: InterfaceId, connects: bool): State {
    if id !in s.rows then s
    else WithStatus(Wrapped(s, id), id, if s.rows[id].enabled then Connected(connects) else Stopped)
  }

  predicate Usable(s: State, id: InterfaceId) {
    id in s.rows && s.rows[id].enabled
  }

  /** `_resolve_wrapper`: an interface without a wrapper is loaded, which also starts it. */
  function Ready(s: State, id: InterfaceId, loads: bool): State {
    if id in s.wrappers then s else Reloaded(s, id, loads)
  }

  predicate NeedsRestart(s: State, id: InterfaceId, first: Check)
    requires id in s.wrappers
  {
    s.wrappers[id].status != Running || first != Up
  }

  /** The state `resolve_publish_context` leaves; `first` answers its first connection check. */
  function Resolved(s: State, id: InterfaceId, connects: bool, first: Check): State
    requires Coherent(s)
  {
    if id !in s.wrappers && !Usable(s, id) then s
    else
      var t := if id in s.wrappers then s else Wrapped(s, id);
      if t.wrappers[id].kind == Mqtt && NeedsRestart(t, id, first) then WithStatus(t, id, Connected(connects)) else t
  }

  /** Every connect is an input. `loads` is the outcome of a connect made while loading a wrapper. */
  datatype Event =
    | StartAll(reachable: set<InterfaceId>)
    | StopAll
    | Reload(id: InterfaceId, connects: bool)
    | StartInterface(id: InterfaceId, loads: bool, connects: bool)
    | StopInterface(id: InterfaceId, loads: bool)
    | Resolve(id: InterfaceId, connects: bool, first: Check)
    | Configure(id: InterfaceId, kind: Kind, enabled: bool)

  function Step(s: State, e: Event): State
    requires Coherent(s)
  {
    match e
    case StartAll(connects) => Started(s, s.wrappers.Keys, connects)
    case StopAll => Stop(s, s.rows.Keys)
    case Reload(id, connects) => Reloaded(s, id, connects)
    case StartInterface(id, loads, connects) =>
      if !Usable(s, id) then s
      else
        var t := Ready(s, id, loads);
        if t.wrappers[id].status == Running then t else WithStatus(t, id, Connected(connects))
    case StopInterface(id, loads) =>
      if !Usable(s, id) then s else WithStatus(Ready(s, id, loads), id, Stopped)
    case Resolve(id, connects, first) => Resolved(s, id, connects, first)
    case Configure(id, kind, enabled) =>
      s.(rows := s.rows[id := Row(kind, enabled, if id in s.rows then s.rows[id].status else Init)])
  }

  /** The state of a fresh worker once it has loaded and started its interfaces. */
  function Booted(rows: map<InterfaceId, Row>, newId: InterfaceId, connects: set<InterfaceId>): State {
    var t := OrDefault(Loaded(State(rows, map[])), newId);
    Started(t, t.wrappers.Keys, connects)
  }

  /** Without any wrapper, a default row and a wrapper for it. */
  function OrDefault(s: State, newId: InterfaceId): State {
    if s.wrappers != map[] then s else Wrapped(s.(rows := s.rows[newId := Row(Mqtt, true, Init)]), newId)
  }

  /** No operation lets a cached status drift from its row. */
  lemma StepKeepsCoherent(s: State, e: Event)
    requires Coherent(s)
    ensures Coherent(Step(s, e))
  {
    if e.Reload? || e.StartInterface? || e.StopInterface? {
      OneKeepsCoherent(s, e);
    }
  }

  lemma WithStatusCoherent(s: State, id: InterfaceId, status: Status)
    requires Coherent(s) && id in s.wrappers && id in s.rows
    ensures Coherent(WithStatus(s, id, status))
  {
  }

  lemma ReloadedCoherent(s: State, id: InterfaceId, connects: bool)
    requires Coherent(s)
    ensures Coherent(Reloaded(s, id, connects))
    ensures id in s.rows ==> id in Reloaded(s, id, connects).wrappers
  {
  }

  lemma OneKeepsCoherent(s: State, e: Event)
    requires Coherent(s) && (e.Reload? || e.StartInterface? || e.StopInterface?)
    ensures Coherent(Step(s, e))
  {
    if e.Reload? {
      ReloadedCoherent(s, e.id, e.connects);
    } else if Usable(s, e.id) {
      ReloadedCoherent(s, e.id, e.loads);
      var t := Ready(s, e.id, e.loads);
      assert Coherent(t) && e.id in t.wrappers;
      WithStatusCoherent(t, e.id, if e.StartInterface? then Connected(e.connects) else Stopped);
    }
    hide Coherent, Reloaded, WithStatus;
  }

  ghost predicate Runs(s: State, es: seq<Event>)
    requires Coherent(s)
    decreases |es|
  {
    es != [] ==> Coherent(Step(s, es[0])) && Runs(Step(s, es[0]), es[1..])
  }

  ghost function After(s: State, es: seq<Event>): State
    requires Coherent(s) && Runs(s, es)
    decreases |es|
  {
    if es == [] then s else After(Step(s, es[0]), es[1..])
  }

  /** Every sequence of operations can be run from a coherent state, and ends in one. */
  lemma {:induction false} RunKeepsCoherent(s: State, es: seq<Event>)
    requires Coherent(s)
    ensures Runs(s, es) && Coherent(After(s, es))
    decreases |es|
  {
    if es != [] {
      StepKeepsCoherent(s, es[0]);
      hide Coherent, Step;
      RunKeepsCoherent(Step(s, es[0]), es[1..]);
    }
  }

  /** Cache coherence of the single worker: from a fresh bootstrap, over any sequence of operations
      with arbitrary connect results, a wrapper's cached status is its row's status. */
  lemma CacheAlwaysCoherent(rows: map<InterfaceId, Row>, newId: InterfaceId, connects: set<InterfaceId>, es: seq<Event>)
    ensures Coherent(Booted(rows, newId, connects)) && Runs(Booted(rows, newId, connects), es)
    ensures Coherent(After(Booted(rows, newId, connects), es))
  {
    BootedCoherent(rows, newId, connects);
    hide Booted, Coherent;
    RunKeepsCoherent(Booted(rows, newId, connects), es);
  }

  /** What a second bootstrap in the same process would leave, `newId` being the key of a default row:
      loading resets the rows behind the wrappers that exist, and starting passes over those that run. */
  function Rebooted(s: State, newId: InterfaceId, connects: set<InterfaceId>): State {
    var t := Loaded(s);
    var u := if t.wrappers != map[] then t else Wrapped(t.(rows := t.rows[newId := Row(Mqtt, true, Init)]), newId);
    Started(u, u.wrappers.Keys, connects)
  }

  /** Loading again right after a bootstrap always breaks the agreement: some wrapper is running or
      failed, and its row is back to INIT. */
  lemma SecondLoadIncoherent(rows: map<InterfaceId, Row>, newId: InterfaceId, connects: set<InterfaceId>)
    requires newId !in rows
    ensures !Coherent(Loaded(Booted(rows, newId, connects)))
  {
    var s := Booted(rows, newId, connects);
    BootedStatus(rows, newId, connects);
    var id :| id in s.wrappers;
    hide Booted;
    var t := Loaded(s);
    assert t.wrappers[id] == s.wrappers[id] && t.rows[id].status in {Init, Stopped};
  }

  lemma BootedStatus(rows: map<InterfaceId, Row>, newId: InterfaceId, connects: set<InterfaceId>)
    requires newId !in rows
    ensures var s := Booted(rows, newId, connects);
            && s.wrappers != map[]
            && forall id | id in s.wrappers :: id in s.rows && s.wrappers[id].status == Connected(id in connects)
  {
    var s := Loaded(State(rows, map[]));
    var t := if s.wrappers != map[] then s else Wrapped(s.(rows := s.rows[newId := Row(Mqtt, true, Init)]), newId);
    assert t.wrappers != map[] by {
      if s.wrappers == map[] {
        assert newId in t.wrappers;
      }
    }
    var id :| id in t.wrappers;
    assert id in Started(t, t.wrappers.Keys, connects).wrappers;
  }

  /** A complete second bootstrap, from any state a run can reach: its starts repair every interface
      except those that were running or connecting, so coherence survives if and only if there was
      none. */
  lemma RebootCoherentIff(s: State, newId: InterfaceId, connects: set<InterfaceId>)
    requires Coherent(s) && newId !in s.rows
    ensures Coherent(Rebooted(s, newId, connects)) <==> forall id | id in s.wrappers :: s.wrappers[id].status !in {Running, Connecting}
  {
    var t := Loaded(s);
    var u := if t.wrappers != map[] then t else Wrapped(t.(rows := t.rows[newId := Row(Mqtt, true, Init)]), newId);
    var v := Started(u, u.wrappers.Keys, connects);
    forall id | id in s.wrappers
      ensures id in v.wrappers && id in v.rows
      ensures v.wrappers[id].status == v.rows[id].status <==> s.wrappers[id].status !in {Running, Connecting}
    {
      assert id in t.wrappers && t.wrappers[id] == s.wrappers[id] && t.rows[id].status in {Init, Stopped};
    }
    forall id | id in v.wrappers && id !in s.wrappers
      ensures id in v.rows && v.wrappers[id].status == v.rows[id].status
    {
      assert id in u.wrappers && u.wrappers[id].status == u.rows[id].status == Init;
    }
  }

  lemma BootedCoherent(rows: map<InterfaceId, Row>, newId: InterfaceId, connects: set<InterfaceId>)
    ensures Coherent(Booted(rows, newId, connects))
  {
  }

  /** A start of a usable interface without a wrapper connects while loading it. If that succeeds the
      interface runs, and no second connect is made: this is what is answered as already running. */
  lemma StartedWhileLoading(s: State, id: InterfaceId, connects: bool)
    requires Coherent(s) && Usable(s, id) && id !in s.wrappers
    ensures var t := Step(s, StartInterface(id, true, connects));
            t == Step(s, Reload(id, true)) && id in t.wrappers && t.wrappers[id].status == t.rows[id].status == Running
  {
  }

  lemma StartOneMore(s: State, ids: set<InterfaceId>, id: InterfaceId, connects: set<InterfaceId>)
    requires Coherent(s) && ids <= s.wrappers.Keys && id in s.wrappers && id !in ids
    ensures var t := Started(s, ids, connects);
            && id in t.rows && id in t.wrappers && t.wrappers[id] == s.wrappers[id] && t.rows[id] == s.rows[id]
            && Started(s, ids + {id}, connects) == WithStatus(t, id, StartStatus(s.wrappers[id].status, id in connects))
  {
    var t := Started(s, ids, connects);
    var u, v := Started(s, ids + {id}, connects), WithStatus(t, id, StartStatus(s.wrappers[id].status, id in connects));
    assert u.rows == v.rows;
    assert u.wrappers == v.wrappers;
  }

  lemma StopOneMore(s: State, ids: set<InterfaceId>, id: InterfaceId)
    requires Coherent(s) && ids <= s.wrappers.Keys && id in s.wrappers && id !in ids
    ensures var t := Stop(s, ids);
            id in t.rows && id in t.wrappers && Stop(s, ids + {id}) == WithStatus(t, id, Stopped)
  {
    var t := Stop(s, ids);
    assert Stop(s, ids + {id}).rows == WithStatus(t, id, Stopped).rows;
    assert Stop(s, ids + {id}).wrappers == WithStatus(t, id, Stopped).wrappers;
  }

  // ------------------------------------------------------------ what each operation does, in its fields

  /** No row changes but in its status, and nothing of any interface but `id`. */
  ghost predicate OthersKept(before: State, after: State, id: InterfaceId) {
    && after.rows.Keys == before.rows.Keys
    && (forall k | k in before.rows :: after.rows[k].kind == before.rows[k].kind && after.rows[k].enabled == before.rows[k].enabled)
    && (forall k | k in before.rows && k != id :: after.rows[k] == before.rows[k])
    && (forall k | k != id :: k in after.wrappers <==> k in before.wrappers)
    && (forall k | k in before.wrappers && k != id :: after.wrappers[k] == before.wrappers[k])
  }

  /** Row and wrapper of the interface, both with this status. */
  ghost predicate Both(s: State, id: InterfaceId, kind: Kind, status: Status) {
    id in s.rows && id in s.wrappers && s.rows[id].status == status && s.wrappers[id] == Wrapper(kind, status)
  }

  ghost predicate Reloads(before: State, after: State, id: InterfaceId, connects: bool) {
    if id !in before.rows then after == before
    else
      && OthersKept(before, after, id)
      && Both(after, id, before.rows[id].kind, if !before.rows[id].enabled then Stopped else if connects then Running else Failed)
  }

  ghost predicate StartsAll(before: State, after: State, connects: set<InterfaceId>) {
    && after.rows.Keys == before.rows.Keys && after.wrappers.Keys == before.wrappers.Keys
    && (forall k | k in before.rows && (k !in before.wrappers || before.wrappers[k].status in {Running, Connecting}) :: after.rows[k] == before.rows[k])
    && (forall k | k in before.wrappers :: if before.wrappers[k].status in {Running, Connecting} then after.wrappers[k] == before.wrappers[k]
                                           else Both(after, k, before.wrappers[k].kind, if k in connects then Running else Failed))
    && (forall k | k in before.rows :: after.rows[k].kind == before.rows[k].kind && after.rows[k].enabled == before.rows[k].enabled)
  }

  ghost predicate StopsAll(before: State, after: State) {
    && after.rows.Keys == before.rows.Keys && after.wrappers.Keys == before.wrappers.Keys
    && (forall k | k in before.rows :: after.rows[k] == Row(before.rows[k].kind, before.rows[k].enabled, Stopped))
    && (forall k | k in before.wrappers :: after.wrappers[k] == Wrapper(before.wrappers[k].kind, Stopped))
  }

  /** A usable interface that runs already is left alone; one without a wrapper is loaded, and is not
      started again if that connects; any other ends as its connect goes. */
  ghost predicate Starts(before: State, after: State, id: InterfaceId, loads: bool, connects: bool) {
    if id !in before.rows || !before.rows[id].enabled then after == before
    else if id in before.wrappers then
      if before.wrappers[id].status == Running then after == before
      else OthersKept(before, after, id) && Both(after, id, before.wrappers[id].kind, if connects then Running else Failed)
    else OthersKept(before, after, id) && Both(after, id, before.rows[id].kind, if loads || connects then Running else Failed)
  }

  ghost predicate Stops(before: State, after: State, id: InterfaceId) {
    if id !in before.rows || !before.rows[id].enabled then after == before
    else
      && OthersKept(before, after, id)
      && Both(after, id, if id in before.wrappers then before.wrappers[id].kind else before.rows[id].kind, Stopped)
  }

  /** An interface without a wrapper gets one if its row is enabled. Then an MQTT one that does not run,
      or whose first check is not positive, is restarted; nothing else changes. */
  ghost predicate Resolves(before: State, after: State, id: InterfaceId, connects: bool, first: Check) {
    if id !in before.wrappers && (id !in before.rows || !before.rows[id].enabled) then after == before
    else
      var kind := if id in before.wrappers then before.wrappers[id].kind else before.rows[id].kind;
      var status := if id in before.wrappers then before.wrappers[id].status else before.rows[id].status;
      && OthersKept(before, after, id)
      && Both(after, id, kind, if kind != Mqtt || (status == Running && first == Up) then status else if connects then Running else Failed)
  }

  ghost predicate NoneEnabled(rows: map<InterfaceId, Row>) {
    forall k | k in rows :: !rows[k].enabled
  }

  /** The enabled rows get wrappers, each of which ends as its connect goes, and the others are stopped.
      Without any, a default MQTT row is made and started. */
  ghost predicate Boots(rows: map<InterfaceId, Row>, after: State, newId: InterfaceId, connects: set<InterfaceId>) {
    var none := NoneEnabled(rows);
    && after.rows.Keys == rows.Keys + (if none then {newId} else {})
    && (forall k | k in rows :: after.rows[k].kind == rows[k].kind && after.rows[k].enabled == rows[k].enabled)
    && (forall k | k in rows && !rows[k].enabled :: after.rows[k].status == Stopped)
    && (forall k :: k in after.wrappers <==> if none then k == newId else k in rows && rows[k].enabled)
    && (forall k | k in rows && rows[k].enabled :: Both(after, k, rows[k].kind, if k in connects then Running else Failed))
    && (none ==> Both(after, newId, Mqtt, if newId in connects then Running else Failed) && after.rows[newId].enabled && after.rows[newId].kind == Mqtt)
  }

  lemma StartAllSpelledOut(s: State, connects: set<InterfaceId>)
    requires Coherent(s)
    ensures StartsAll(s, Step(s, StartAll(connects)), connects)
  {
    assert Step(s, StartAll(connects)) == Started(s, s.wrappers.Keys, connects);
    hide Step;
  }

  lemma StopAllSpelledOut(s: State)
    requires Coherent(s)
    ensures StopsAll(s, Step(s, StopAll))
  {
    assert Step(s, StopAll) == Stop(s, s.rows.Keys);
    hide Step;
  }

  lemma ReloadedSpelledOut(s: State, id: InterfaceId, connects: bool)
    requires id in s.wrappers ==> id in s.rows
    ensures Reloads(s, Reloaded(s, id, connects), id, connects)
  {
  }

  lemma ReloadSpelledOut(s: State, id: InterfaceId, connects: bool)
    requires Coherent(s)
    ensures Reloads(s, Step(s, Reload(id, connects)), id, connects)
  {
    assert Step(s, Reload(id, connects)) == Reloaded(s, id, connects);
    hide Step, Reloaded, Reloads;
    ReloadedSpelledOut(s, id, connects);
  }

  lemma WithStatusKeeps(s: State, id: InterfaceId, status: Status)
    requires id in s.rows && id in s.wrappers
    ensures OthersKept(s, WithStatus(s, id, status), id) && Both(WithStatus(s, id, status), id, s.wrappers[id].kind, status)
  {
  }

  lemma OthersKeptTwice(s: State, t: State, u: State, id: InterfaceId)
    requires OthersKept(s, t, id) && OthersKept(t, u, id)
    ensures OthersKept(s, u, id)
  {
  }

  lemma StartSpelledOut(s: State, id: InterfaceId, loads: bool, connects: bool)
    requires Coherent(s)
    ensures Starts(s, Step(s, StartInterface(id, loads, connects)), id, loads, connects)
  {
    if Usable(s, id) {
      var t := Ready(s, id, loads);
      ReloadedSpelledOut(s, id, loads);
      assert id in s.wrappers ==> t == s;
      assert id !in s.wrappers ==> t == Reloaded(s, id, loads) && Reloads(s, t, id, loads);
      assert id in t.rows && id in t.wrappers;
      WithStatusKeeps(t, id, Connected(connects));
      assert Step(s, StartInterface(id, loads, connects)) == if t.wrappers[id].status == Running then t else WithStatus(t, id, Connected(connects));
      hide Step, Ready, Reloaded, WithStatus, OthersKept;
      if id !in s.wrappers && t.wrappers[id].status != Running {
        OthersKeptTwice(s, t, WithStatus(t, id, Connected(connects)), id);
      }
    }
  }

  lemma StopSpelledOut(s: State, id: InterfaceId, loads: bool)
    requires Coherent(s)
    ensures Stops(s, Step(s, StopInterface(id, loads)), id)
  {
    if Usable(s, id) {
      var t := Ready(s, id, loads);
      ReloadedSpelledOut(s, id, loads);
      assert id in s.wrappers ==> t == s;
      assert id !in s.wrappers ==> t == Reloaded(s, id, loads) && Reloads(s, t, id, loads);
      assert id in t.rows && id in t.wrappers;
      WithStatusKeeps(t, id, Stopped);
      assert Step(s, StopInterface(id, loads)) == WithStatus(t, id, Stopped);
      hide Step, Ready, Reloaded, WithStatus, OthersKept;
      if id !in s.wrappers {
        OthersKeptTwice(s, t, WithStatus(t, id, Stopped), id);
      }
    }
  }

  lemma ResolveSpelledOut(s: State, id: InterfaceId, connects: bool, first: Check)
    requires Coherent(s)
    ensures Resolves(s, Step(s, Resolve(id, connects, first)), id, connects, first)
  {
    var u := Resolved(s, id, connects, first);
    assert Step(s, Resolve(id, connects, first)) == u;
    hide Step;
    if id in s.wrappers || Usable(s, id) {
      var t := if id in s.wrappers then s else Wrapped(s, id);
      WrappedKeeps(s, t, id);
      WithStatusKeeps(t, id, Connected(connects));
      assert u == if t.wrappers[id].kind == Mqtt && NeedsRestart(t, id, first) then WithStatus(t, id, Connected(connects)) else t;
      hide Resolved, WithStatus, Wrapped, OthersKept;
      OthersKeptTwice(s, t, u, id) by { assert OthersKept(t, u, id) by { KeptSame(t, id); } }
    }
  }

  lemma KeptSame(s: State, id: InterfaceId)
    ensures OthersKept(s, s, id)
  {
  }

  lemma WrappedKeeps(s: State, t: State, id: InterfaceId)
    requires Coherent(s) && id in s.rows && t == if id in s.wrappers then s else Wrapped(s, id)
    ensures OthersKept(s, t, id)
    ensures if id in s.wrappers then Both(t, id, s.wrappers[id].kind, s.wrappers[id].status) else Both(t, id, s.rows[id].kind, s.rows[id].status)
  {
  }

  lemma LoadSpelledOut(rows: map<InterfaceId, Row>)
    ensures var s := Loaded(State(rows, map[]));
            && s.rows.Keys == rows.Keys
            && (forall k | k in rows :: s.rows[k] == Row(rows[k].kind, rows[k].enabled, if rows[k].enabled then Init else Stopped))
            && (forall k :: k in s.wrappers <==> k in rows && rows[k].enabled)
            && (forall k | k in rows && rows[k].enabled :: s.wrappers[k] == Wrapper(rows[k].kind, Init))
  {
  }

  lemma BootSpelledOut(rows: map<InterfaceId, Row>, newId: InterfaceId, connects: set<InterfaceId>)
    requires newId !in rows
    ensures Boots(rows, Booted(rows, newId, connects), newId, connects)
  {
    var t := OrDefault(Loaded(State(rows, map[])), newId);
    assert Booted(rows, newId, connects) == Started(t, t.wrappers.Keys, connects);
    LoadSpelledOut(rows);
    DefaultSpelledOut(rows, Loaded(State(rows, map[])), newId);
    hide Booted, Loaded, OrDefault, Started;
    StartAllSpelledOut(t, connects);
    assert Step(t, StartAll(connects)) == Started(t, t.wrappers.Keys, connects);
    hide *;
    BootsFrom(rows, t, Booted(rows, newId, connects), newId, connects);
  }

  lemma BootsFrom(rows: map<InterfaceId, Row>, t: State, after: State, newId: InterfaceId, connects: set<InterfaceId>)
    requires newId !in rows && StartsAll(t, after, connects)
    requires t.rows.Keys == rows.Keys + (if NoneEnabled(rows) then {newId} else {})
    requires forall k :: k in t.wrappers <==> if NoneEnabled(rows) then k == newId else k in rows && rows[k].enabled
    requires forall k | k in rows :: t.rows[k] == Row(rows[k].kind, rows[k].enabled, if rows[k].enabled then Init else Stopped)
    requires NoneEnabled(rows) ==> t.rows[newId] == Row(Mqtt, true, Init)
    requires forall k | k in t.wrappers :: k in t.rows && t.wrappers[k] == Wrapper(t.rows[k].kind, Init)
    ensures Boots(rows, after, newId, connects)
  {
    assert NoneEnabled(rows) ==> forall k | k in rows :: !rows[k].enabled;
    hide NoneEnabled;
  }

  lemma DefaultSpelledOut(rows: map<InterfaceId, Row>, s: State, newId: InterfaceId)
    requires newId !in rows && s.rows.Keys == rows.Keys
    requires forall k | k in rows :: s.rows[k] == Row(rows[k].kind, rows[k].enabled, if rows[k].enabled then Init else Stopped)
    requires forall k :: k in s.wrappers <==> k in rows && rows[k].enabled
    requires forall k | k in rows && rows[k].enabled :: s.wrappers[k] == Wrapper(rows[k].kind, Init)
    ensures var t := OrDefault(s, newId);
            var none := NoneEnabled(rows);
            && t.rows.Keys == rows.Keys + (if none then {newId} else {})
            && (forall k :: k in t.wrappers <==> if none then k == newId else k in rows && rows[k].enabled)
            && (forall k | k in rows :: t.rows[k] == s.rows[k])
            && (none ==> t.rows[newId] == Row(Mqtt, true, Init))
            && (forall k | k in t.wrappers :: k in t.rows && t.wrappers[k] == Wrapper(t.rows[k].kind, Init) && t.rows[k].status == Init)
  {
    if NoneEnabled(rows) {
      assert s.wrappers == map[];
    }
  }

  // ------------------------------------------------------------ the manager object

  class ServiceManager {
    var s: State

    constructor (rows: map<InterfaceId, Row>)
      ensures s == State(rows, map[]) && Coherent(s)
    {
      s := State(rows, map[]);
    }

    /** `RuntimeInterfaceWrapper.start`: the row and the wrapper's copy of it end running or failed,
        and nothing else changes. */
    method StartWrapper(id: InterfaceId, connects: bool)
      requires id in s.wrappers && id in s.rows
      modifies this
      ensures OnlyStatus(old(s), s, id) && (s.wrappers[id].status == Running <==> connects)
      ensures s.wrappers[id].status in {Running, Failed}
    {
      var status := if connects then Running else Failed;
      s := s.(wrappers := s.wrappers[id := s.wrappers[id].(status := status)]);
      s := s.(rows := s.rows[id := s.rows[id].(status := status)]);
    }

    /** `RuntimeInterfaceWrapper.stop`; errors from disconnecting are swallowed. */
    method StopWrapper(id: InterfaceId)
      requires id in s.wrappers && id in s.rows
      modifies this
      ensures OnlyStatus(old(s), s, id) && s.wrappers[id].status == Stopped
    {
      s := s.(wrappers := s.wrappers[id := s.wrappers[id].(status := Stopped)]);
      s := s.(rows := s.rows[id := s.rows[id].(status := Stopped)]);
    }

    method Start(id: InterfaceId, connects: bool)
      requires id in s.wrappers && id in s.rows
      modifies this
      ensures s == WithStatus(old(s), id, Connected(connects))
    {
      StartWrapper(id, connects);
      OnlyStatusIs(old(s), s, id);
    }

    method Halt(id: InterfaceId)
      requires id in s.wrappers && id in s.rows
      modifies this
      ensures s == WithStatus(old(s), id, Stopped)
    {
      StopWrapper(id);
      OnlyStatusIs(old(s), s, id);
    }

    method Wrap(id: InterfaceId)
      requires id in s.rows
      modifies this
      ensures s == Wrapped(old(s), id)
    {
      s := s.(wrappers := s.wrappers[id := Wrapper(s.rows[id].kind, s.rows[id].status)]);
    }

    /** `bootstrap` in a fresh process. `newId` is the key a default row would get. */
    method Bootstrap(connects: set<InterfaceId>, newId: InterfaceId)
      requires s.wrappers == map[] && newId !in s.rows
      modifies this
      ensures Coherent(s) && s.wrappers != map[]
      ensures s == Booted(old(s.rows), newId, connects)
      ensures Boots(old(s.rows), s, newId, connects)
      ensures forall id | id in s.wrappers :: s.wrappers[id].status == Connected(id in connects)
    {
      BootSpelledOut(s.rows, newId, connects);
      hide Boots;
      s := Loaded(s);
      if s.wrappers == map[] {
        s := s.(rows := s.rows[newId := Row(Mqtt, true, Init)]);
        Wrap(newId);
      }
      ghost var loaded := s;
      StartAllInterfaces(connects);
      assert s.wrappers.Keys == loaded.wrappers.Keys;
    }

    /** `start_all`. */
    method StartAllInterfaces(connects: set<InterfaceId>)
      requires Coherent(s)
      modifies this
      ensures Coherent(s) && s == Step(old(s), StartAll(connects))
      ensures StartsAll(old(s), s, connects)
    {
      StartAllSpelledOut(s, connects);
      StepKeepsCoherent(s, StartAll(connects));
      hide StartsAll;
      var todo := s.wrappers.Keys;
      ghost var done: set<InterfaceId> := {};
      assert s == Started(s, done, connects);
      hide Coherent, Started;
      while todo != {}
        invariant done !! todo && done + todo == old(s).wrappers.Keys && s == Started(old(s), done, connects)
        decreases todo
      {
        var id :| id in todo;
        StartOneMore(old(s), done, id, connects);
        if s.wrappers[id].status !in {Running, Connecting} {
          Start(id, id in connects);
        } else {
          SameStatus(old(s), s, id);
        }
        todo := todo - {id};
        done := done + {id};
      }
      assert done == old(s).wrappers.Keys;
    }

    /** `stop_all`. */
    method StopAllInterfaces()
      requires Coherent(s)
      modifies this
      ensures Coherent(s) && s == Step(old(s), StopAll)
      ensures StopsAll(old(s), s)
    {
      StopAllSpelledOut(s);
      hide StopsAll;
      var todo := s.wrappers.Keys;
      ghost var done: set<InterfaceId> := {};
      assert s == Stop(s, done);
      StopCovers(s);
      hide Coherent, Stop;
      while todo != {}
        invariant done !! todo && done + todo == old(s).wrappers.Keys && s == Stop(old(s), done)
        decreases todo
      {
        var id :| id in todo;
        StopOneMore(old(s), done, id);
        Halt(id);
        todo := todo - {id};
        done := done + {id};
      }
      assert done == old(s).wrappers.Keys;
      s := s.(rows := map id | id in s.rows :: s.rows[id].(status := Stopped));
      StepKeepsCoherent(old(s), StopAll);
    }

    /** `reload_interface`. */
    method ReloadInterface(id: InterfaceId, connects: bool)
      requires Coherent(s)
      modifies this
      ensures Coherent(s) && s == Step(old(s), Reload(id, connects))
      ensures Reloads(old(s), s, id, connects)
    {
      hide *;
      ReloadSpelledOut(s, id, connects);
      ReloadSteps(id, connects);
    }

    method ReloadSteps(id: InterfaceId, connects: bool)
      requires Coherent(s)
      modifies this
      ensures Coherent(s) && s == Step(old(s), Reload(id, connects))
    {
      if id in s.wrappers {
        Halt(id);
      }
      if id !in s.rows {
        s := s.(wrappers := s.wrappers - {id});
        return;
      }
      Wrap(id);
      if s.rows[id].enabled {
        Start(id, connects);
      } else if s.rows[id].status != Stopped {
        Halt(id);
      }
      SameState(s, Reloaded(old(s), id, connects));
    }

    /** `start_interface_task`. An interface that has no wrapper yet is started while it is loaded,
        so a start that succeeds there is answered as already running. */
    method StartInterfaceTask(id: InterfaceId, loads: bool, connects: bool) returns (r: Result<InterfaceId, Error>)
      requires Coherent(s)
      modifies this
      ensures Coherent(s) && s == Step(old(s), StartInterface(id, loads, connects))
      ensures Starts(old(s), s, id, loads, connects)
      ensures r == Err(NotFound) <==> id !in old(s).rows
      ensures r == Err(Disabled) <==> id in old(s).rows && !old(s).rows[id].enabled
      ensures r == Err(AlreadyRunning) <==>
              Usable(old(s), id) && if id in old(s).wrappers then old(s).wrappers[id].status == Running else loads
      ensures r.Ok? ==> s.wrappers[id].status == Connected(connects)
    {
      StartSpelledOut(s, id, loads, connects);
      StepKeepsCoherent(s, StartInterface(id, loads, connects));
      hide Starts;
      if id !in s.rows {
        return Err(NotFound);
      }
      if !s.rows[id].enabled {
        return Err(Disabled);
      }
      if id !in s.wrappers {
        ReloadInterface(id, loads);
      }
      if s.wrappers[id].status == Running {
        return Err(AlreadyRunning);
      }
      Start(id, connects);
      return Ok(id);
    }

    /** `stop_interface_task`. */
    method StopInterfaceTask(id: InterfaceId, loads: bool) returns (r: Result<InterfaceId, Error>)
      requires Coherent(s)
      modifies this
      ensures Coherent(s) && s == Step(old(s), StopInterface(id, loads))
      ensures Stops(old(s), s, id)
      ensures r == Err(NotFound) <==> id !in old(s).rows
      ensures r == Err(Disabled) <==> id in old(s).rows && !old(s).rows[id].enabled
      ensures r == Err(AlreadyStopped) <==> Usable(old(s), id) && id in old(s).wrappers && old(s).wrappers[id].status == Stopped
      ensures Usable(old(s), id) ==> s.wrappers[id].status == Stopped
    {
      StopSpelledOut(s, id, loads);
      StepKeepsCoherent(s, StopInterface(id, loads));
      hide Stops;
      if id !in s.rows {
        return Err(NotFound);
      }
      if !s.rows[id].enabled {
        return Err(Disabled);
      }
      if id !in s.wrappers {
        ReloadInterface(id, loads);
      }
      if s.wrappers[id].status == Stopped {
        SameState(s, WithStatus(s, id, Stopped));
        return Err(AlreadyStopped);
      }
      Halt(id);
      return Ok(id);
    }

    method Restart(id: InterfaceId, connects: bool)
      requires id in s.wrappers && id in s.rows
      modifies this
      ensures s == WithStatus(old(s), id, Connected(connects))
    {
      if s.wrappers[id].status == Running {
        Halt(id);
      }
      Start(id, connects);
      SameState(s, WithStatus(old(s), id, Connected(connects)));
    }

    /** `resolve_publish_context`. `checks` are the successive answers of `is_connected`; `used` of
        them were asked for. It succeeds exactly when it ends with an MQTT wrapper in RUNNING whose
        most recent check was positive. */
    method ResolvePublishContext(id: InterfaceId, connects: bool, checks: seq<Check>)
      returns (r: Result<InterfaceId, Error>, ghost used: nat)
      requires Coherent(s) && |checks| == 22
      modifies this
      ensures Coherent(s) && used <= 22
      ensures s == Step(old(s), Resolve(id, connects, checks[0]))
      ensures Resolves(old(s), s, id, connects, checks[0])
      ensures r.Ok? <==>
                && id in s.wrappers && s.wrappers[id].kind == Mqtt && s.wrappers[id].status == Running
                && used > 0 && checks[used - 1] == Up
      ensures r == Err(NotFound) <==> id !in old(s).wrappers && id !in old(s).rows
      ensures r == Err(Disabled) <==> id !in old(s).wrappers && id in old(s).rows && !old(s).rows[id].enabled
      ensures r == Err(NotMqtt) <==> id in s.wrappers && s.wrappers[id].kind != Mqtt
      ensures r == Err(NotRunning) ==> !connects && s.wrappers[id].status == Failed
      ensures r == Err(NotConnected) ==> connects && used > 0 && forall i | 0 <= i < used :: checks[i] != Up
    {
      hide *;
      ResolveSpelledOut(s, id, connects, checks[0]);
      r, used := ResolveSteps(id, connects, checks);
    }

    method ResolveSteps(id: InterfaceId, connects: bool, checks: seq<Check>)
      returns (r: Result<InterfaceId, Error>, ghost used: nat)
      requires Coherent(s) && |checks| == 22
      modifies this
      ensures Coherent(s) && used <= 22
      ensures s == Step(old(s), Resolve(id, connects, checks[0]))
      ensures r.Ok? <==>
                && id in s.wrappers && s.wrappers[id].kind == Mqtt && s.wrappers[id].status == Running
                && used > 0 && checks[used - 1] == Up
      ensures r == Err(NotFound) <==> id !in old(s).wrappers && id !in old(s).rows
      ensures r == Err(Disabled) <==> id !in old(s).wrappers && id in old(s).rows && !old(s).rows[id].enabled
      ensures r == Err(NotMqtt) <==> id in s.wrappers && s.wrappers[id].kind != Mqtt
      ensures r == Err(NotRunning) ==> !connects && s.wrappers[id].status == Failed
      ensures r == Err(NotConnected) ==> connects && used > 0 && forall i | 0 <= i < used :: checks[i] != Up
    {
      used := 0;
      StepKeepsCoherent(s, Resolve(id, connects, checks[0]));
      assert id in s.wrappers ==> id in s.rows;
      hide Coherent;
      if id !in s.wrappers {
        if id !in s.rows {
          return Err(NotFound), 0;
        }
        if !s.rows[id].enabled {
          return Err(Disabled), 0;
        }
        Wrap(id);
      }
      if s.wrappers[id].kind != Mqtt {
        return Err(NotMqtt), 0;
      }
      var needRestart := s.wrappers[id].status != Running;
      var next := 0;
      if !needRestart {
        needRestart := checks[0] != Up;
        next := 1;
      }
      if needRestart {
        Restart(id, connects);
        if s.wrappers[id].status != Running {
          return Err(NotRunning), next;
        }
        var connected: bool;
        connected, next := AwaitConnection(checks, next);
        if !connected {
          return Err(NotConnected), next;
        }
      }
      return Ok(id), next;
    }

    /** One check after the restart, then up to twenty more, given up at the first exception. */
    method AwaitConnection(checks: seq<Check>, start: nat) returns (connected: bool, next: nat)
      requires start <= 1 && |checks| == 22
      ensures start < next <= 22
      ensures connected <==> checks[next - 1] == Up
      ensures forall i | start <= i < next - 1 :: checks[i] != Up && (i > start ==> checks[i] == Down)
      ensures !connected ==> next == start + 21 || checks[next - 1] == Raises
    {
      connected := checks[start] == Up;
      next := start + 1;
      while !connected && next < start + 21
        invariant start < next <= start + 21
        invariant connected <==> checks[next - 1] == Up
        invariant forall i | start <= i < next :: (checks[i] == Up ==> i == next - 1) && (i > start ==> checks[i] != Raises)
        decreases 22 - next
      {
        next := next + 1;
        if checks[next - 1] == Raises {
          return;
        }
        connected := checks[next - 1] == Up;
      }
    }
  }

  lemma SameStatus(s: State, t: State, id: InterfaceId)
    requires Coherent(s) && id in s.wrappers && id in t.wrappers && id in t.rows
    requires t.wrappers[id] == s.wrappers[id] && t.rows[id] == s.rows[id]
    ensures WithStatus(t, id, s.wrappers[id].status) == t
  {
    SameState(WithStatus(t, id, s.wrappers[id].status), t);
  }

  lemma SameState(s: State, t: State)
    requires s.rows == t.rows && s.wrappers == t.wrappers
    ensures s == t
  {
  }

  lemma StopCovers(s: State)
    requires Coherent(s)
    ensures var t := Stop(s, s.wrappers.Keys);
            t.(rows := map id | id in t.rows :: t.rows[id].(status := Stopped)) == Stop(s, s.rows.Keys)
  {
    var t := Stop(s, s.wrappers.Keys);
    SameState(t.(rows := map id | id in t.rows :: t.rows[id].(status := Stopped)), Stop(s, s.rows.Keys));
  }
}
