/** Capture sessions: the in-memory map of active writers over the persisted session rows, with
    lazy activation, the size limit, errors, stop, cancel and delete; each public operation of the
    worker process is one atomic step. A writer is represented by the frames it has accepted. */
module Capture {
  import opened Prelude
  import opened PcapNg
  import opened PcapWriter

  type SessionId = nat

  datatype Status = Running | Completed | Failed | Cancelled

  datatype Session = Session(status: Status, source: string, iface: Option<nat>,
                             packetCount: nat, byteCount: nat, fileSize: nat, maxSizeReached: bool)

  /** `basePackets` and `baseBytes` are the row's counters when the writer was opened, and `rounds`
      counts the packets ingested since. */
  datatype Active = Active(source: string, iface: Option<nat>, frames: seq<Frame>,
                           basePackets: nat, baseBytes: nat, rounds: nat)

  datatype System = System(sessions: map<SessionId, Session>, active: map<SessionId, Active>)

  /** A received envelope once parsed: nothing usable, or the payloads to capture. */
  datatype Envelope =
    | Unusable
    | Contents(mesh: seq<Byte>, data: seq<Byte>, extras: seq<(seq<Byte>, seq<Byte>)>)

  // ------------------------------------------------------------ one session

  function NewActive(row: Session): Active {
    Active(row.source, row.iface, [], row.packetCount, row.byteCount, 0)
  }

  function Extras(extras: seq<(seq<Byte>, seq<Byte>)>, ticks: int): seq<Frame> {
    seq(|extras|, i requires 0 <= i < |extras| => Frame(0, extras[i].0, extras[i].1, ticks))
  }

  /** The frames one envelope produces: the mesh packet, its data message if any, and the nested
      payloads, the last on the default interface. */
  function FramesOf(e: Envelope, ticks: int): seq<Frame>
    requires e.Contents?
  {
    [Frame(0, Utf8(MESH_TYPE), e.mesh, ticks)]
    + (if e.data == [] then [] else [Frame(1, Utf8(DATA_TYPE), e.data, ticks)])
    + Extras(e.extras, ticks)
  }

  /** The writer accepts the frame; `ioFails` says that writing the file fails. */
  predicate Accepts(f: Frame, ioFails: bool) {
    f.messageType != [] && Fits(f) && !ioFails
  }

  predicate AllAccepted(fs: seq<Frame>, failAt: Option<nat>) {
    forall i | 0 <= i < |fs| :: Accepts(fs[i], failAt == Some(i))
  }

  function TotalPayload(fs: seq<Frame>): nat {
    if fs == [] then 0 else TotalPayload(fs[..|fs| - 1]) + |fs[|fs| - 1].payload|
  }

  function Size(fs: seq<Frame>): nat {
    |FileBytes(fs)|
  }

  predicate OverLimit(size: nat, limit: Option<nat>) {
    limit.Some? && size >= limit.value
  }

  /** One target of an ingest: written and counted, stopped by the size limit, or failed. */
  function Ingested(row: Session, a: Active, fs: seq<Frame>, failAt: Option<nat>, limit: Option<nat>): (Session, Option<Active>) {
    if !AllAccepted(fs, failAt) then (row.(status := Failed), None)
    else
      var frames := a.frames + fs;
      var row' := row.(packetCount := row.packetCount + 1, byteCount := row.byteCount + TotalPayload(fs), fileSize := Size(frames));
      if OverLimit(Size(frames), limit) then (row'.(status := Completed, maxSizeReached := true), None)
      else (row', Some(a.(frames := frames, rounds := a.rounds + 1)))
  }

  /** `size` is the file size its writer reports, if it has one. */
  function Stopped(row: Session, size: Option<nat>): Session {
    row.(status := if row.status == Running then Completed else row.status, fileSize := size.GetOr(row.fileSize))
  }

  // ------------------------------------------------------------ operations

  datatype Event =
    | StartCapture(id: SessionId, source: string, iface: Option<nat>, openable: bool)
    | Activate(id: SessionId, openable: bool)
    | StopCapture(id: SessionId)
    | CancelCapture(id: SessionId)
    | StopAll
    | DeleteCapture(id: SessionId)
    | DeleteAll
    | Ingest(source: string, iface: Option<nat>, envelope: Envelope, ticks: int,
             canOpen: set<SessionId>, failures: map<SessionId, nat>)

  function Get<K, V>(m: map<K, V>, k: K): Option<V> {
    if k in m then Some(m[k]) else None
  }

  /** Opening a writer for a running session: success registers it, failure marks the row. */
  function Opened(s: System, id: SessionId, ok: bool): System
    requires id in s.sessions
  {
    if ok then s.(active := s.active[id := NewActive(s.sessions[id])])
    else s.(sessions := s.sessions[id := s.sessions[id].(status := Failed)])
  }

  /** The file size of an active session. */
  function SizeOf(s: System, id: SessionId): Option<nat> {
    if id in s.active then Some(Size(s.active[id].frames)) else None
  }

  function Targets(active: map<SessionId, Active>, source: string, iface: Option<nat>): set<SessionId> {
    set id | id in active && active[id].source == source && (active[id].iface == None || active[id].iface == iface)
  }

  /** Running rows an ingest may activate that have no writer yet. */
  function Dormant(s: System, source: string, iface: Option<nat>): set<SessionId> {
    set id | id in s.sessions && id !in s.active && s.sessions[id].status == Running && s.sessions[id].source == source
             && (s.sessions[id].iface == None || s.sessions[id].iface == iface)
  }

  function AllOpened(s: System, ids: set<SessionId>, canOpen: set<SessionId>): System
    requires ids <= s.sessions.Keys
  {
    System(map id | id in s.sessions :: if id in ids - canOpen then s.sessions[id].(status := Failed) else s.sessions[id],
           map id | id in s.active.Keys + ids * canOpen :: if id in ids then NewActive(s.sessions[id]) else s.active[id])
  }

  function AllIngested(s: System, targets: set<SessionId>, fs: seq<Frame>, failures: map<SessionId, nat>, limit: Option<nat>): System
    requires targets <= s.active.Keys && targets <= s.sessions.Keys
  {
    System(map id | id in s.sessions :: if id in targets then Ingested(s.sessions[id], s.active[id], fs, Get(failures, id), limit).0 else s.sessions[id],
           map id | id in s.active && (id in targets ==> Ingested(s.sessions[id], s.active[id], fs, Get(failures, id), limit).1.Some?)
           :: if id in targets then Ingested(s.sessions[id], s.active[id], fs, Get(failures, id), limit).1.value else s.active[id])
  }

  function BeforeWriting(s: System, e: Event): System
    requires e.Ingest?
  {
    if Targets(s.active, e.source, e.iface) == {} then AllOpened(s, Dormant(s, e.source, e.iface), e.canOpen) else s
  }

  /** Every active writer has a row, and the row is running. */
  ghost predicate ActiveAreRunning(s: System) {
    forall id | id in s.active ::
      && id in s.sessions && s.sessions[id].status == Running
      && s.active[id].source == s.sessions[id].source && s.active[id].iface == s.sessions[id].iface
  }

  ghost predicate Allowed(s: System, e: Event) {
    e.StartCapture? ==> e.id !in s.sessions
  }

  function Step(s: System, e: Event, limit: Option<nat>): System
    requires ActiveAreRunning(s) && Allowed(s, e)
  {
    match e
    case StartCapture(id, source, iface, openable) =>
      Opened(s.(sessions := s.sessions[id := Session(Running, source, iface, 0, 0, 0, false)]), id, openable)
    case Activate(id, openable) =>
      if id in s.active || id !in s.sessions || s.sessions[id].status != Running then s else Opened(s, id, openable)
    case StopCapture(id) =>
      System(if id in s.sessions then s.sessions[id := Stopped(s.sessions[id], SizeOf(s, id))] else s.sessions, s.active - {id})
    case CancelCapture(id) =>
      System(if id in s.sessions then s.sessions[id := s.sessions[id].(status := Cancelled)] else s.sessions, s.active - {id})
    case StopAll =>
      System(map id | id in s.sessions :: if id in s.active && s.sessions[id].status == Running then s.sessions[id].(status := Cancelled) else s.sessions[id], map[])
    case DeleteCapture(id) => System(s.sessions - {id}, s.active - {id})
    case DeleteAll => System(map[], map[])
    case Ingest(source, iface, envelope, ticks, canOpen, failures) =>
      var t := BeforeWriting(s, e);
      if envelope.Unusable? then t
      else
        OpeningKeepsRunning(s, e);
        AllIngested(t, Targets(t.active, source, iface), FramesOf(envelope, ticks), failures, limit)
  }

  lemma OpeningKeepsRunning(s: System, e: Event)
    requires ActiveAreRunning(s) && e.Ingest?
    ensures ActiveAreRunning(BeforeWriting(s, e))
  {
  }

  // ------------------------------------------------------------ what every operation keeps

  /** Byte and packet accounting of one writer lifetime, and the limit for what was written to. */
  ghost predicate Accounted(row: Session, a: Active, limit: Option<nat>) {
    && AllFit(a.frames)
    && row.packetCount == a.basePackets + a.rounds
    && row.byteCount == a.baseBytes + TotalPayload(a.frames)
    && (a.rounds == 0 ==> a.frames == [])
    && (a.rounds > 0 ==> row.fileSize == HEADER_SIZE + TotalCost(a.frames) && !OverLimit(row.fileSize, limit))
  }

  ghost predicate Inv(s: System, limit: Option<nat>) {
    ActiveAreRunning(s) && forall id | id in s.active :: Accounted(s.sessions[id], s.active[id], limit)
  }

  lemma {:induction false} PayloadConcat(a: seq<Frame>, b: seq<Frame>)
    ensures TotalPayload(a + b) == TotalPayload(a) + TotalPayload(b)
    ensures TotalCost(a + b) == TotalCost(a) + TotalCost(b)
  {
    hide Cost;
    if b == [] {
      assert a + b == a;
    } else {
      assert (a + b)[..|a + b| - 1] == a + b[..|b| - 1];
      PayloadConcat(a, b[..|b| - 1]);
    }
  }

  lemma IngestAccounts(row: Session, a: Active, fs: seq<Frame>, failAt: Option<nat>, limit: Option<nat>)
    requires Accounted(row, a, limit) && row.status == Running
    ensures var r := Ingested(row, a, fs, failAt, limit);
            && (r.1.Some? ==> r.0.status == Running && Accounted(r.0, r.1.value, limit))
            && (r.1.None? ==> r.0.status == Failed || r.0.status == Completed)
            && r.0.source == row.source && r.0.iface == row.iface
            && (r.1.Some? ==> r.1.value.source == a.source && r.1.value.iface == a.iface)
  {
    hide TotalPayload, TotalCost, FileBytes, Fits;
    PayloadConcat(a.frames, fs);
    FileSize(a.frames + fs);
    if AllAccepted(fs, failAt) {
      forall i | 0 <= i < |a.frames + fs|
        ensures Fits((a.frames + fs)[i])
      {
        assert i >= |a.frames| ==> Accepts(fs[i - |a.frames|], failAt == Some(i - |a.frames|));
      }
    }
  }

  lemma NewActiveAccounted(row: Session, limit: Option<nat>)
    ensures Accounted(row, NewActive(row), limit)
  {
  }

  lemma OpeningKeepsInv(s: System, ids: set<SessionId>, canOpen: set<SessionId>, limit: Option<nat>)
    requires Inv(s, limit) && ids <= s.sessions.Keys && ids !! s.active.Keys
    requires forall id | id in ids :: s.sessions[id].status == Running
    ensures Inv(AllOpened(s, ids, canOpen), limit)
  {
    hide Accounted;
    var t := AllOpened(s, ids, canOpen);
    forall id | id in t.active
      ensures Accounted(t.sessions[id], t.active[id], limit)
    {
      if id in ids {
        NewActiveAccounted(s.sessions[id], limit);
      }
    }
  }

  lemma IngestingKeepsInv(s: System, targets: set<SessionId>, fs: seq<Frame>, failures: map<SessionId, nat>, limit: Option<nat>)
    requires Inv(s, limit) && targets <= s.active.Keys
    ensures Inv(AllIngested(s, targets, fs, failures, limit), limit)
  {
    hide Accounted, Ingested;
    var t := AllIngested(s, targets, fs, failures, limit);
    forall id | id in t.active
      ensures id in t.sessions && t.sessions[id].status == Running && Accounted(t.sessions[id], t.active[id], limit)
      ensures t.active[id].source == t.sessions[id].source && t.active[id].iface == t.sessions[id].iface
    {
      if id in targets {
        IngestAccounts(s.sessions[id], s.active[id], fs, Get(failures, id), limit);
      }
    }
  }

  /** Every public operation keeps the invariant: active sessions are running, accounted for to the
      byte, and below the limit once written to. */
  lemma StepKeepsInv(s: System, e: Event, limit: Option<nat>)
    requires Inv(s, limit) && Allowed(s, e)
    ensures Inv(Step(s, e, limit), limit)
  {
    hide Accounted, AllIngested, AllOpened, FramesOf, Stopped;
    match e
    case Ingest(source, iface, envelope, ticks, canOpen, failures) =>
      OpeningKeepsInv(s, Dormant(s, source, iface), canOpen, limit);
      var b := BeforeWriting(s, e);
      if envelope.Contents? {
        IngestingKeepsInv(b, Targets(b.active, source, iface), FramesOf(envelope, ticks), failures, limit);
      }
    case StartCapture(id, source, iface, _) =>
      NewActiveAccounted(Session(Running, source, iface, 0, 0, 0, false), limit);
    case Activate(id, _) =>
      if id in s.sessions {
        NewActiveAccounted(s.sessions[id], limit);
      }
    case _ =>
  }

  /** At any point of any run, the file of an active session reads back as exactly the frames its
      writer accepted, the stored size is the file's size, and the stored byte count covers the
      payloads that are read. */
  lemma ActiveFileReadsBack(es: seq<Event>, limit: Option<nat>, id: SessionId)
    requires Runs(System(map[], map[]), es, limit) && id in After(System(map[], map[]), es, limit).active
    ensures var s := After(System(map[], map[]), es, limit);
            var a := s.active[id];
            && id in s.sessions
            && ReadFile(FileBytes(a.frames)) == Some(Recovered(a.frames))
            && (a.rounds > 0 ==> s.sessions[id].fileSize == |FileBytes(a.frames)|)
            && s.sessions[id].byteCount == a.baseBytes + PayloadRead(ReadFile(FileBytes(a.frames)).value.packets)
  {
    hide Step, ReadFile, FileBytes, Recovered, TotalPayload, TotalCost;
    RunKeepsInv(System(map[], map[]), es, limit);
    var a := After(System(map[], map[]), es, limit).active[id];
    RoundTrip(a.frames);
    FileSize(a.frames);
    PayloadSeen(a.frames);
    assert Recovered(a.frames).packets == SeenAll(a.frames) by { RecoveredPackets(a.frames); }
  }

  /** Payload bytes in the packets of a capture. */
  function PayloadRead(ps: seq<Packet>): nat {
    if ps == [] then 0 else PayloadRead(ps[..|ps| - 1]) + |ps[|ps| - 1].data|
  }

  lemma {:induction false} PayloadSeen(fs: seq<Frame>)
    ensures PayloadRead(SeenAll(fs)) == TotalPayload(fs)
  {
    if fs != [] {
      PayloadSeen(fs[..|fs| - 1]);
      assert SeenAll(fs)[..|fs| - 1] == SeenAll(fs[..|fs| - 1]);
    }
  }

  lemma RecoveredPackets(fs: seq<Frame>)
    ensures Recovered(fs).packets == SeenAll(fs)
  {
  }

  ghost predicate Frozen(before: Session, after: Session) {
    && after.status != Running
    && (after.packetCount, after.byteCount, after.fileSize) == (before.packetCount, before.byteCount, before.fileSize)
  }

  /** An ingest does not touch a session that has left RUNNING. */
  lemma IngestLeavesFinished(s: System, e: Event, limit: Option<nat>, id: SessionId)
    requires Inv(s, limit) && e.Ingest? && id in s.sessions && s.sessions[id].status != Running
    ensures id in Step(s, e, limit).sessions && Step(s, e, limit).sessions[id] == s.sessions[id]
  {
    hide Accounted, Ingested, FramesOf;
  }

  /** No operation returns a session to RUNNING or changes the counters of one that left it. */
  lemma StepKeepsFrozen(s: System, e: Event, limit: Option<nat>, id: SessionId)
    requires Inv(s, limit) && Allowed(s, e)
    requires id in s.sessions && s.sessions[id].status != Running && id in Step(s, e, limit).sessions
    ensures Frozen(s.sessions[id], Step(s, e, limit).sessions[id])
  {
    if e.Ingest? {
      IngestLeavesFinished(s, e, limit, id);
    }
    hide Accounted, AllIngested, AllOpened, FramesOf, SizeOf;
  }

  ghost predicate Runs(s: System, es: seq<Event>, limit: Option<nat>)
    requires ActiveAreRunning(s)
    decreases |es|
  {
    es != [] ==>
      && Allowed(s, es[0])
      && ActiveAreRunning(Step(s, es[0], limit))
      && Runs(Step(s, es[0], limit), es[1..], limit)
  }

  ghost function After(s: System, es: seq<Event>, limit: Option<nat>): System
    requires ActiveAreRunning(s) && Runs(s, es, limit)
    decreases |es|
  {
    if es == [] then s else After(Step(s, es[0], limit), es[1..], limit)
  }

  /** Over whole runs: accounting, limit and running status hold at every point. */
  lemma {:induction false} RunKeepsInv(s: System, es: seq<Event>, limit: Option<nat>)
    requires Inv(s, limit) && Runs(s, es, limit)
    ensures Inv(After(s, es, limit), limit)
    decreases |es|
  {
    if es != [] {
      StepKeepsInv(s, es[0], limit);
      hide Inv, Step;
      RunKeepsInv(Step(s, es[0], limit), es[1..], limit);
    }
  }

  /** Once a session has left RUNNING it stays out of it and its packet count, byte count and file
      size never change, for as long as its row exists. */
  lemma {:induction false} FrozenForever(s: System, es: seq<Event>, limit: Option<nat>, id: SessionId)
    requires Inv(s, limit) && Runs(s, es, limit)
    requires forall i | 0 <= i < |es| && es[i].StartCapture? :: es[i].id != id
    requires id in s.sessions ==> s.sessions[id].status != Running
    ensures id in After(s, es, limit).sessions ==> id in s.sessions && Frozen(s.sessions[id], After(s, es, limit).sessions[id])
    decreases |es|
  {
    if es != [] {
      var t := Step(s, es[0], limit);
      StepKeepsInv(s, es[0], limit);
      if id in t.sessions {
        NoNewRows(s, es[0], limit, id);
        StepKeepsFrozen(s, es[0], limit, id);
      }
      hide Inv, Step;
      FrozenForever(t, es[1..], limit, id);
    }
  }

  /** A session that left RUNNING changes status only by being cancelled. */
  lemma StepStatus(s: System, e: Event, limit: Option<nat>, id: SessionId)
    requires Inv(s, limit) && Allowed(s, e)
    requires id in s.sessions && s.sessions[id].status != Running && id in Step(s, e, limit).sessions
    ensures Step(s, e, limit).sessions[id].status == if e == CancelCapture(id) then Cancelled else s.sessions[id].status
  {
    if e.Ingest? {
      IngestLeavesFinished(s, e, limit, id);
    }
    hide Accounted, AllIngested, AllOpened, FramesOf, SizeOf;
  }

  /** The row survives every step of the run. */
  ghost predicate Survives(s: System, es: seq<Event>, limit: Option<nat>, id: SessionId)
    requires ActiveAreRunning(s) && Runs(s, es, limit)
    decreases |es|
  {
    id in s.sessions && (es != [] ==> Survives(Step(s, es[0], limit), es[1..], limit, id))
  }

  /** A terminal status is final except for cancellation: over any run it ends as CANCELLED if the
      session is cancelled on the way, and as it was otherwise. */
  lemma {:induction false} FinalStatus(s: System, es: seq<Event>, limit: Option<nat>, id: SessionId)
    requires Inv(s, limit) && Runs(s, es, limit) && Survives(s, es, limit, id)
    requires s.sessions[id].status != Running
    ensures id in After(s, es, limit).sessions
    ensures After(s, es, limit).sessions[id].status == if CancelCapture(id) in es then Cancelled else s.sessions[id].status
    decreases |es|
  {
    if es != [] {
      var t := Step(s, es[0], limit);
      StepKeepsInv(s, es[0], limit);
      StepStatus(s, es[0], limit, id);
      StepKeepsFrozen(s, es[0], limit, id);
      assert CancelCapture(id) in es <==> es[0] == CancelCapture(id) || CancelCapture(id) in es[1..];
      hide Inv, Step;
      FinalStatus(t, es[1..], limit, id);
    }
  }

  /** So a terminal status changes over a run if and only if it is not CANCELLED already and the run
      cancels the session. */
  lemma TerminalStatusChangesIff(s: System, es: seq<Event>, limit: Option<nat>, id: SessionId)
    requires Inv(s, limit) && Runs(s, es, limit) && Survives(s, es, limit, id)
    requires s.sessions[id].status != Running
    ensures id in After(s, es, limit).sessions
    ensures After(s, es, limit).sessions[id].status != s.sessions[id].status
       <==> s.sessions[id].status in {Completed, Failed} && CancelCapture(id) in es
  {
    FinalStatus(s, es, limit, id);
  }

  /** It does happen: started, stopped, then cancelled. */
  lemma CompletedThenCancelled(limit: Option<nat>)
    ensures var s := System(map[], map[]);
            var t := Step(s, StartCapture(1, "mqtt", None, true), limit);
            && ActiveAreRunning(s) && ActiveAreRunning(t)
            && var u := Step(t, StopCapture(1), limit);
            && ActiveAreRunning(u) && u.sessions.Keys == {1} && u.sessions[1].status == Completed
            && var v := Step(u, CancelCapture(1), limit);
            && v.sessions.Keys == {1} && v.sessions[1].status == Cancelled
  {
    hide FileBytes;
  }

  lemma NoNewRows(s: System, e: Event, limit: Option<nat>, id: SessionId)
    requires Inv(s, limit) && Allowed(s, e) && id in Step(s, e, limit).sessions
    requires e.StartCapture? ==> e.id != id
    ensures id in s.sessions
  {
    hide Accounted, Ingested, FramesOf;
  }

  /** Final size: an ingest leaves no file at or above the limit plus what that ingest wrote. */
  lemma SizeBound(s: System, e: Event, limit: nat, id: SessionId)
    requires Inv(s, Some(limit)) && Allowed(s, e) && e.Ingest? && e.envelope.Contents? && HEADER_SIZE < limit
    requires id in BeforeWriting(s, e).active && id in Targets(BeforeWriting(s, e).active, e.source, e.iface)
    ensures id in Step(s, e, Some(limit)).sessions
    ensures var row := Step(s, e, Some(limit)).sessions[id];
            row.status != Failed ==>
              && row.fileSize < limit + TotalCost(FramesOf(e.envelope, e.ticks))
              && (row.status == Completed <==> row.fileSize >= limit)
  {
    hide TotalPayload, TotalCost, FileBytes, Fits, FramesOf;
    var b, fs := BeforeWriting(s, e), FramesOf(e.envelope, e.ticks);
    var row, a := b.sessions[id], b.active[id];
    if id !in s.active {
      NewActiveAccounted(s.sessions[id], Some(limit));
    }
    assert Accounted(row, a, Some(limit));
    PayloadConcat(a.frames, fs);
    FileSize(a.frames + fs);
    assert TotalCost([]) == 0 by { EmptyCost(); }
  }

  lemma EmptyCost()
    ensures TotalCost([]) == 0
  {
  }

  // ------------------------------------------------------------ what each operation does, in its fields

  /** All sessions but one are as they were. */
  ghost predicate OthersKept(before: System, after: System, id: SessionId) {
    && (forall k | k != id :: k in after.sessions <==> k in before.sessions)
    && (forall k | k != id && k in before.sessions :: after.sessions[k] == before.sessions[k])
    && (forall k | k != id :: k in after.active <==> k in before.active)
    && (forall k | k != id && k in before.active :: after.active[k] == before.active[k])
  }

  /** The row differs in its status only. */
  ghost predicate OnlyStatus(before: Session, after: Session, status: Status) {
    after == Session(status, before.source, before.iface, before.packetCount, before.byteCount, before.fileSize, before.maxSizeReached)
  }

  /** A new running session with an empty capture, or a failed one without a writer. */
  ghost predicate Starts(before: System, after: System, id: SessionId, source: string, iface: Option<nat>, openable: bool) {
    && OthersKept(before, after, id) && id in after.sessions
    && after.sessions[id] == Session(if openable then Running else Failed, source, iface, 0, 0, 0, false)
    && (id in after.active <==> openable) && (openable ==> after.active[id] == Active(source, iface, [], 0, 0, 0))
  }

  /** A running session without a writer gets an empty one, or fails; any other is left alone. */
  ghost predicate Activates(before: System, after: System, id: SessionId, openable: bool) {
    if id in before.active || id !in before.sessions || before.sessions[id].status != Running then after == before
    else
      && OthersKept(before, after, id) && id in after.sessions && (id in after.active <==> openable)
      && Reopened(before.sessions[id], after.sessions[id], if id in after.active then Some(after.active[id]) else None)
  }

  ghost predicate Reopened(before: Session, after: Session, a: Option<Active>) {
    if a.Some? then after == before && a.value == Active(before.source, before.iface, [], before.packetCount, before.byteCount, 0)
    else OnlyStatus(before, after, Failed)
  }

  /** A running session becomes completed, any other keeps its status; a live one ends with the size of
      its file. */
  ghost predicate Stops(before: System, after: System, id: SessionId) {
    && OthersKept(before, after, id) && id !in after.active && (id in after.sessions <==> id in before.sessions)
    && (id in before.sessions ==>
          var r := before.sessions[id];
          after.sessions[id] == Session(if r.status == Running then Completed else r.status, r.source, r.iface, r.packetCount, r.byteCount,
                                        if id in before.active then |FileBytes(before.active[id].frames)| else r.fileSize, r.maxSizeReached))
  }

  ghost predicate Cancels(before: System, after: System, id: SessionId) {
    && OthersKept(before, after, id) && id !in after.active && (id in after.sessions <==> id in before.sessions)
    && (id in before.sessions ==> OnlyStatus(before.sessions[id], after.sessions[id], Cancelled))
  }

  ghost predicate Deletes(before: System, after: System, id: SessionId) {
    OthersKept(before, after, id) && id !in after.active && id !in after.sessions
  }

  ghost predicate CancelsAll(before: System, after: System) {
    && after.active == map[] && after.sessions.Keys == before.sessions.Keys
    && (forall k | k in before.sessions ::
          if k in before.active && before.sessions[k].status == Running then OnlyStatus(before.sessions[k], after.sessions[k], Cancelled)
          else after.sessions[k] == before.sessions[k])
  }

  /** A session that listens to everything from the source, or to the interface the envelope came by. */
  predicate Listens(source: string, iface: Option<nat>, from: string, via: Option<nat>) {
    source == from && (iface.Some? ==> iface == via)
  }

  ghost predicate HasListener(s: System, from: string, via: Option<nat>) {
    exists id :: id in s.active && Listens(s.active[id].source, s.active[id].iface, from, via)
  }

  /** Without any active listener, every running session that listens and has no writer is opened. */
  ghost predicate Wakes(s: System, id: SessionId, from: string, via: Option<nat>) {
    && !HasListener(s, from, via)
    && id in s.sessions && id !in s.active && s.sessions[id].status == Running && Listens(s.sessions[id].source, s.sessions[id].iface, from, via)
  }

  ghost predicate SomeWriteFails(fs: seq<Frame>, failAt: Option<nat>) {
    exists i :: 0 <= i < |fs| && (failAt == Some(i) || fs[i].messageType == [] || !Fits(fs[i]))
  }

  lemma SomeWriteFailsIff(fs: seq<Frame>, failAt: Option<nat>)
    ensures SomeWriteFails(fs, failAt) <==> !AllAccepted(fs, failAt)
  {
    hide Fits;
    if !AllAccepted(fs, failAt) {
      var i :| 0 <= i < |fs| && !Accepts(fs[i], failAt == Some(i));
      assert failAt == Some(i) || fs[i].messageType == [] || !Fits(fs[i]);
    }
  }

  /** What one capture becomes when the frames are written to it: failed, with nothing counted, if a
      write fails or a frame is not acceptable; else longer by the frames and counted, and completed if
      the file has reached the limit. */
  ghost predicate Writes(row: Session, a: Active, row': Session, a': Option<Active>, fs: seq<Frame>, failAt: Option<nat>, limit: Option<nat>) {
    if SomeWriteFails(fs, failAt) then OnlyStatus(row, row', Failed) && a' == None
    else
      var size := |FileBytes(a.frames + fs)|;
      var reached := limit.Some? && size >= limit.value;
      && row' == Session(if reached then Completed else row.status, row.source, row.iface, row.packetCount + 1, row.byteCount + TotalPayload(fs),
                         size, if reached then true else row.maxSizeReached)
      && (if reached then a' == None else a' == Some(Active(a.source, a.iface, a.frames + fs, a.basePackets, a.baseBytes, a.rounds + 1)))
  }

  /** What an ingest does to one session. */
  ghost predicate IngestsOne(s: System, t: System, id: SessionId, e: Event, limit: Option<nat>)
    requires e.Ingest? && id in s.sessions && id in t.sessions
  {
    var row, row', a' := s.sessions[id], t.sessions[id], if id in t.active then Some(t.active[id]) else None;
    var failAt := if id in e.failures then Some(e.failures[id]) else None;
    if Wakes(s, id, e.source, e.iface) then
      if id !in e.canOpen then OnlyStatus(row, row', Failed) && a' == None
      else if e.envelope.Unusable? then Reopened(row, row', a') && a'.Some?
      else Writes(row, Active(row.source, row.iface, [], row.packetCount, row.byteCount, 0), row', a', FramesOf(e.envelope, e.ticks), failAt, limit)
    else if id in s.active && e.envelope.Contents? && Listens(s.active[id].source, s.active[id].iface, e.source, e.iface) then
      Writes(row, s.active[id], row', a', FramesOf(e.envelope, e.ticks), failAt, limit)
    else row' == row && a' == if id in s.active then Some(s.active[id]) else None
  }

  ghost predicate Ingests(s: System, t: System, e: Event, limit: Option<nat>)
    requires e.Ingest?
  {
    t.sessions.Keys == s.sessions.Keys && t.active.Keys <= t.sessions.Keys && forall id | id in s.sessions :: IngestsOne(s, t, id, e, limit)
  }

  lemma OperationsSpelledOut(s: System, e: Event, limit: Option<nat>)
    requires ActiveAreRunning(s) && Allowed(s, e) && !e.Ingest?
    ensures var t := Step(s, e, limit);
            match e
            case StartCapture(id, source, iface, openable) => id !in s.active ==> Starts(s, t, id, source, iface, openable)
            case Activate(id, openable) => Activates(s, t, id, openable)
            case StopCapture(id) => Stops(s, t, id)
            case CancelCapture(id) => Cancels(s, t, id)
            case StopAll => CancelsAll(s, t)
            case DeleteCapture(id) => Deletes(s, t, id)
            case DeleteAll => t == System(map[], map[])
            case _ => true
  {
    hide FileBytes, FramesOf, AllIngested, AllOpened;
  }

  lemma StartSpelledOut(s: System, id: SessionId, source: string, iface: Option<nat>, openable: bool, limit: Option<nat>)
    requires ActiveAreRunning(s) && id !in s.sessions
    ensures Starts(s, Step(s, StartCapture(id, source, iface, openable), limit), id, source, iface, openable)
  {
    assert id !in s.active;
    OperationsSpelledOut(s, StartCapture(id, source, iface, openable), limit);
    hide Starts, Step;
  }

  lemma IngestedWrites(row: Session, a: Active, fs: seq<Frame>, failAt: Option<nat>, limit: Option<nat>)
    ensures var (row', a') := Ingested(row, a, fs, failAt, limit);
            Writes(row, a, row', a', fs, failAt, limit)
  {
    SomeWriteFailsIff(fs, failAt);
    hide FileBytes, TotalPayload, AllAccepted, SomeWriteFails;
  }

  lemma TargetsListen(s: System, source: string, iface: Option<nat>)
    ensures forall id :: id in Targets(s.active, source, iface) <==> id in s.active && Listens(s.active[id].source, s.active[id].iface, source, iface)
    ensures Targets(s.active, source, iface) == {} <==> !HasListener(s, source, iface)
  {
    assert forall id :: id in Targets(s.active, source, iface) <==> id in s.active && Listens(s.active[id].source, s.active[id].iface, source, iface);
    if HasListener(s, source, iface) {
      var id :| id in s.active && Listens(s.active[id].source, s.active[id].iface, source, iface);
      assert id in Targets(s.active, source, iface);
    }
  }

  lemma DormantWake(s: System, source: string, iface: Option<nat>)
    ensures !HasListener(s, source, iface) ==> forall id :: id in Dormant(s, source, iface) <==> Wakes(s, id, source, iface)
  {
    hide HasListener;
  }

  /** The state before writing, by session. */
  lemma OpeningSpelledOut(s: System, e: Event, id: SessionId)
    requires ActiveAreRunning(s) && e.Ingest? && id in s.sessions
    ensures var t := BeforeWriting(s, e);
            && t.sessions.Keys == s.sessions.Keys && id in t.sessions
            && (if Wakes(s, id, e.source, e.iface) && id !in e.canOpen then OnlyStatus(s.sessions[id], t.sessions[id], Failed) && id !in t.active
                else t.sessions[id] == s.sessions[id])
            && (Wakes(s, id, e.source, e.iface) && id in e.canOpen ==>
                  id in t.active && t.active[id] == Active(s.sessions[id].source, s.sessions[id].iface, [], s.sessions[id].packetCount, s.sessions[id].byteCount, 0))
            && (!Wakes(s, id, e.source, e.iface) ==> (id in t.active <==> id in s.active) && (id in s.active ==> t.active[id] == s.active[id]))
  {
    TargetsListen(s, e.source, e.iface);
    DormantWake(s, e.source, e.iface);
    hide Targets, Dormant, HasListener, Listens;
  }

  lemma NoListenerWithoutWaking(s: System, e: Event, id: SessionId)
    requires e.Ingest? && id in s.active && Listens(s.active[id].source, s.active[id].iface, e.source, e.iface)
    ensures HasListener(s, e.source, e.iface) && BeforeWriting(s, e) == s
  {
    TargetsListen(s, e.source, e.iface);
    hide Targets, Dormant, Listens, AllOpened;
  }

  lemma IngestSpelledOutFor(s: System, e: Event, limit: Option<nat>, id: SessionId)
    requires ActiveAreRunning(s) && e.Ingest? && id in s.sessions
    ensures id in Step(s, e, limit).sessions && IngestsOne(s, Step(s, e, limit), id, e, limit)
  {
    OpeningSpelledOut(s, e, id);
    WritingSpelledOut(s, e, limit, id);
    if id in s.active && Listens(s.active[id].source, s.active[id].iface, e.source, e.iface) {
      NoListenerWithoutWaking(s, e, id);
    }
    hide HasListener, Writes, FramesOf, BeforeWriting, Step, OnlyStatus;
  }

  /** From the state before writing to the one after, by session. */
  lemma WritingSpelledOut(s: System, e: Event, limit: Option<nat>, id: SessionId)
    requires ActiveAreRunning(s) && e.Ingest? && id in s.sessions && id in BeforeWriting(s, e).sessions
    ensures var t, u := BeforeWriting(s, e), Step(s, e, limit);
            var a' := if id in u.active then Some(u.active[id]) else None;
            && id in u.sessions
            && if id in t.active && e.envelope.Contents? && Listens(t.active[id].source, t.active[id].iface, e.source, e.iface)
               then Writes(t.sessions[id], t.active[id], u.sessions[id], a', FramesOf(e.envelope, e.ticks),
                           if id in e.failures then Some(e.failures[id]) else None, limit)
               else u.sessions[id] == t.sessions[id] && a' == if id in t.active then Some(t.active[id]) else None
  {
    var t := BeforeWriting(s, e);
    OpeningKeepsRunning(s, e);
    TargetsListen(t, e.source, e.iface);
    if id in t.active && e.envelope.Contents? {
      IngestedWrites(t.sessions[id], t.active[id], FramesOf(e.envelope, e.ticks), Get(e.failures, id), limit);
    }
    hide Targets, HasListener, Ingested, Writes, FramesOf, BeforeWriting, Listens;
  }

  lemma IngestSpelledOut(s: System, e: Event, limit: Option<nat>)
    requires ActiveAreRunning(s) && e.Ingest?
    ensures Ingests(s, Step(s, e, limit), e, limit)
  {
    OpeningKeepsRunning(s, e);
    var t, u := BeforeWriting(s, e), Step(s, e, limit);
    assert u.sessions.Keys == s.sessions.Keys && u.active.Keys <= u.sessions.Keys by {
      assert t.active.Keys <= t.sessions.Keys == s.sessions.Keys;
      hide Targets, Dormant, Ingested, FramesOf;
    }
    hide IngestsOne, Step;
    forall id | id in s.sessions
      ensures id in u.sessions && IngestsOne(s, u, id, e, limit)
    {
      IngestSpelledOutFor(s, e, limit, id);
    }
  }

  // ------------------------------------------------------------ the service object

  datatype Failure = NotFound | InterfaceNotFound | WriterFailed

  function ExtraBytes(extras: seq<(seq<Byte>, seq<Byte>)>): nat {
    if extras == [] then 0 else ExtraBytes(extras[..|extras| - 1]) + |extras[|extras| - 1].1|
  }

  lemma {:induction false} ExtraPayload(extras: seq<(seq<Byte>, seq<Byte>)>, ticks: int)
    ensures TotalPayload(Extras(extras, ticks)) == ExtraBytes(extras)
  {
    if extras != [] {
      var n := |extras| - 1;
      ExtraPayload(extras[..n], ticks);
      assert Extras(extras, ticks)[..n] == Extras(extras[..n], ticks);
    }
  }

  lemma PayloadOfOne(f: Frame)
    ensures TotalPayload([f]) == |f.payload|
  {
    assert [f][..0] == [];
  }

  /** The byte count an ingest computes before it writes is that of the frames it writes. */
  lemma PayloadOfEnvelope(e: Envelope, ticks: int)
    requires e.Contents?
    ensures TotalPayload(FramesOf(e, ticks)) == |e.mesh| + |e.data| + ExtraBytes(e.extras)
  {
    hide TotalPayload, Extras;
    var mesh, data := Frame(0, Utf8(MESH_TYPE), e.mesh, ticks), Frame(1, Utf8(DATA_TYPE), e.data, ticks);
    PayloadOfOne(mesh);
    PayloadOfOne(data);
    ExtraPayload(e.extras, ticks);
    if e.data == [] {
      assert FramesOf(e, ticks) == [mesh] + Extras(e.extras, ticks);
    } else {
      assert FramesOf(e, ticks) == [mesh] + [data] + Extras(e.extras, ticks);
      PayloadConcat([mesh], [data]);
    }
    PayloadConcat(if e.data == [] then [mesh] else [mesh] + [data], Extras(e.extras, ticks));
  }

  /** The first `k` frames have been accepted on top of `before`. */
  ghost predicate Progress(frames: seq<Frame>, before: seq<Frame>, fs: seq<Frame>, k: nat, failAt: Option<nat>) {
    k <= |fs| && frames == before + fs[..k] && forall j | 0 <= j < k :: Accepts(fs[j], failAt == Some(j))
  }

  lemma ProgressNext(before: seq<Frame>, fs: seq<Frame>, k: nat, failAt: Option<nat>)
    requires k < |fs| && Progress(before + fs[..k], before, fs, k, failAt) && Accepts(fs[k], failAt == Some(k))
    ensures Progress(before + fs[..k] + [fs[k]], before, fs, k + 1, failAt)
  {
    hide Accepts;
    assert fs[..k + 1] == fs[..k] + [fs[k]];
  }

  lemma ProgressDone(frames: seq<Frame>, before: seq<Frame>, fs: seq<Frame>, failAt: Option<nat>)
    requires Progress(frames, before, fs, |fs|, failAt)
    ensures AllAccepted(fs, failAt) && frames == before + fs
  {
    hide Accepts;
    assert fs[..|fs|] == fs;
  }

  lemma Rejected(fs: seq<Frame>, k: nat, failAt: Option<nat>)
    requires k < |fs| && !Accepts(fs[k], failAt == Some(k))
    ensures !AllAccepted(fs, failAt)
  {
  }

  /** Writes one envelope to one writer. `failAt` is the index of the write the operating system
      fails, if any. */
  method WriteEnvelope(w: PcapNgWriter, e: Envelope, ticks: int, failAt: Option<nat>) returns (ok: bool)
    requires e.Contents? && w.Valid() && w.open
    modifies w
    ensures w.Valid() && w.open
    ensures ok <==> AllAccepted(FramesOf(e, ticks), failAt)
    ensures ok ==> w.frames == old(w.frames) + FramesOf(e, ticks)
  {
    ghost var before, fs := w.frames, FramesOf(e, ticks);
    var k := if e.data == [] then 1 else 2;
    FramesInOrder(e, ticks, k);
    hide FramesOf, PcapNgWriter.Valid, Utf8, AllAccepted, Progress;
    NoProgress(before, fs, failAt);
    ok := WriteMesh(w, e.mesh, ticks, before, fs, failAt);
    if !ok {
      return;
    }
    if e.data != [] {
      ok := WriteData(w, e.data, ticks, before, fs, failAt);
      if !ok {
        return;
      }
    }
    ok := WriteExtras(w, e.extras, ticks, k, before, fs, failAt);
  }

  lemma NoProgress(before: seq<Frame>, fs: seq<Frame>, failAt: Option<nat>)
    ensures Progress(before, before, fs, 0, failAt)
  {
    assert before + fs[..0] == before;
  }

  method WriteMesh(w: PcapNgWriter, mesh: seq<Byte>, ticks: int, ghost before: seq<Frame>, ghost fs: seq<Frame>, failAt: Option<nat>)
    returns (ok: bool)
    requires w.Valid() && w.open && Progress(w.frames, before, fs, 0, failAt)
    requires |fs| > 0 && fs[0] == Frame(0, Utf8(MESH_TYPE), mesh, ticks) && Utf8(MESH_TYPE) != []
    modifies w
    ensures w.Valid() && w.open
    ensures if ok then Progress(w.frames, before, fs, 1, failAt) else !AllAccepted(fs, failAt)
  {
    hide Fits, PcapNgWriter.Valid, Utf8, AllAccepted;
    ok := false;
    if failAt != Some(0) {
      var r := w.WriteMeshPacket(mesh, ticks);
      ok := r.Ok?;
    }
    if ok {
      ProgressNext(before, fs, 0, failAt);
    } else {
      Rejected(fs, 0, failAt);
    }
  }

  method WriteData(w: PcapNgWriter, data: seq<Byte>, ticks: int, ghost before: seq<Frame>, ghost fs: seq<Frame>, failAt: Option<nat>)
    returns (ok: bool)
    requires w.Valid() && w.open && Progress(w.frames, before, fs, 1, failAt)
    requires |fs| > 1 && fs[1] == Frame(1, Utf8(DATA_TYPE), data, ticks) && Utf8(DATA_TYPE) != []
    modifies w
    ensures w.Valid() && w.open
    ensures if ok then Progress(w.frames, before, fs, 2, failAt) else !AllAccepted(fs, failAt)
  {
    hide Fits, PcapNgWriter.Valid, Utf8, AllAccepted;
    ok := false;
    if failAt != Some(1) {
      var r := w.WriteDataPacket(data, ticks);
      ok := r.Ok?;
    }
    if ok {
      ProgressNext(before, fs, 1, failAt);
    } else {
      Rejected(fs, 1, failAt);
    }
  }

  method WriteExtras(w: PcapNgWriter, extras: seq<(seq<Byte>, seq<Byte>)>, ticks: int, k: nat,
                     ghost before: seq<Frame>, ghost fs: seq<Frame>, failAt: Option<nat>)
    returns (ok: bool)
    requires w.Valid() && w.open && Progress(w.frames, before, fs, k, failAt)
    requires |fs| == k + |extras| && forall i | 0 <= i < |extras| :: fs[k + i] == Frame(0, extras[i].0, extras[i].1, ticks)
    modifies w
    ensures w.Valid() && w.open
    ensures ok <==> AllAccepted(fs, failAt)
    ensures ok ==> w.frames == before + fs
  {
    hide Fits, PcapNgWriter.Valid, AllAccepted, Progress;
    for i := 0 to |extras|
      invariant w.Valid() && w.open && Progress(w.frames, before, fs, k + i, failAt)
    {
      ok := WriteExtra(w, extras[i], ticks, k + i, before, fs, failAt);
      if !ok {
        return;
      }
    }
    ProgressDone(w.frames, before, fs, failAt);
    ok := true;
  }

  method WriteExtra(w: PcapNgWriter, extra: (seq<Byte>, seq<Byte>), ticks: int, k: nat,
                    ghost before: seq<Frame>, ghost fs: seq<Frame>, failAt: Option<nat>)
    returns (ok: bool)
    requires w.Valid() && w.open && Progress(w.frames, before, fs, k, failAt)
    requires k < |fs| && fs[k] == Frame(0, extra.0, extra.1, ticks)
    modifies w
    ensures w.Valid() && w.open
    ensures if ok then Progress(w.frames, before, fs, k + 1, failAt) else !AllAccepted(fs, failAt)
  {
    hide Fits, PcapNgWriter.Valid, AllAccepted;
    ok := false;
    if failAt != Some(k) {
      var r := w.WritePacket(extra.0, extra.1, None, ticks);
      ok := r.Ok?;
    }
    if ok {
      ProgressNext(before, fs, k, failAt);
    } else {
      Rejected(fs, k, failAt);
    }
  }

  /** The frames of an envelope by position. */
  lemma FramesInOrder(e: Envelope, ticks: int, k: nat)
    requires e.Contents? && k == if e.data == [] then 1 else 2
    ensures var fs := FramesOf(e, ticks);
            && |fs| == k + |e.extras|
            && fs[0] == Frame(0, Utf8(MESH_TYPE), e.mesh, ticks)
            && (e.data != [] ==> fs[1] == Frame(1, Utf8(DATA_TYPE), e.data, ticks))
            && (forall i | 0 <= i < |e.extras| :: fs[k + i] == Frame(0, e.extras[i].0, e.extras[i].1, ticks))
            && Utf8(MESH_TYPE) != [] && Utf8(DATA_TYPE) != []
  {
  }

  class CaptureService {
    const limit: Option<nat>
    var s: System
    var writers: map<SessionId, PcapNgWriter>
    ghost var owned: set<PcapNgWriter>   // every writer opened so far

    /** Each active session has a writer of its own, open, that has accepted exactly its frames. */
    ghost predicate Wired()
      reads this, owned
    {
      && writers.Keys == s.active.Keys
      && (forall id | id in writers :: writers[id] in owned && writers[id].Valid() && writers[id].open && writers[id].frames == s.active[id].frames)
      && (forall i, j | i in writers && j in writers && i != j :: writers[i] != writers[j])
    }

    ghost predicate Valid()
      reads this, owned
    {
      Inv(s, limit) && Wired()
    }

    constructor (limit: Option<nat>)
      ensures this.limit == limit && s == System(map[], map[]) && Valid()
    {
      this.limit := limit;
      s := System(map[], map[]);
      writers, owned := map[], {};
    }

    /** `_register_active_session`: opening the writer may fail, which marks the row. */
    method RegisterActiveSession(id: SessionId, openable: bool) returns (ok: bool)
      requires Wired() && id in s.sessions && id !in s.active
      modifies this
      ensures Wired() && s == Opened(old(s), id, openable) && ok == openable
      ensures old(owned) <= owned && fresh(owned - old(owned))
    {
      hide PcapNgWriter.Valid;
      if !openable {
        s := s.(sessions := s.sessions[id := s.sessions[id].(status := Failed)]);
        return false;
      }
      var writer := new PcapNgWriter();
      s := s.(active := s.active[id := NewActive(s.sessions[id])]);
      writers := writers[id := writer];
      owned := owned + {writer};
      return true;
    }

    /** Takes a session out of the active map and closes its writer. */
    method Deactivate(id: SessionId)
      requires Wired() && id in writers
      modifies this, writers[id]
      ensures Wired() && s == old(s).(active := old(s).active - {id})
      ensures writers == old(writers) - {id} && owned == old(owned)
      ensures old(writers)[id].Valid() && !old(writers)[id].open && old(writers)[id].frames == old(writers[id].frames)
    {
      hide PcapNgWriter.Valid;
      var writer := writers[id];
      writers := writers - {id};
      s := s.(active := s.active - {id});
      writer.Close();
    }

    /** The same for a session that need not be active. */
    method Pop(id: SessionId)
      requires Wired()
      modifies this, owned
      ensures Wired() && s == old(s).(active := old(s).active - {id}) && id !in writers
      ensures id in old(writers) ==>
                && old(writers)[id].Valid() && !old(writers)[id].open
                && old(writers)[id].frames == old(s.active[id].frames)
    {
      hide PcapNgWriter.Valid;
      if id in writers {
        Deactivate(id);
      } else {
        WithoutAbsent(s, id);
      }
    }

    /** Pops a session and asks its closed writer for the file size. */
    method PopAndMeasure(id: SessionId) returns (size: Option<nat>)
      requires Wired()
      modifies this, owned
      ensures Wired() && s == old(s).(active := old(s).active - {id})
      ensures size == SizeOf(old(s), id)
      ensures id in old(writers) ==> !old(writers)[id].open
    {
      StillWired();
      SizeOfIs(s, id);
      hide PcapNgWriter.Valid, SizeOf, TotalCost, Wired;
      var writer := Get(writers, id);
      Pop(id);
      size := None;
      if writer.Some? {
        var n := writer.value.BytesWritten();
        size := Some(n);
      }
    }

    lemma StillWired()
      requires Wired()
      ensures writers.Keys == s.active.Keys
    {
    }

    /** Saves a row; writers are not concerned. */
    method Save(id: SessionId, row: Session)
      requires Wired()
      modifies this`s
      ensures Wired() && s == old(s).(sessions := old(s).sessions[id := row])
    {
      hide PcapNgWriter.Valid;
      s := s.(sessions := s.sessions[id := row]);
    }

    /** `start_capture`; `found` says whether the requested interface exists, `id` is a fresh key. */
    method Start(id: SessionId, source: string, iface: Option<nat>, found: bool, openable: bool) returns (r: Result<SessionId, Failure>)
      requires Valid() && id !in s.sessions
      modifies this
      ensures Valid()
      ensures iface.Some? && !found ==> r == Err(InterfaceNotFound) && s == old(s)
      ensures !(iface.Some? && !found) ==>
                s == Step(old(s), StartCapture(id, source, iface, openable), limit) && r == if openable then Ok(id) else Err(WriterFailed)
      ensures !(iface.Some? && !found) ==> Starts(old(s), s, id, source, iface, openable)
    {
      assert ActiveAreRunning(s);
      hide *;
      StartSpelledOut(s, id, source, iface, openable, limit);
      r := StartSteps(id, source, iface, found, openable);
    }

    method StartSteps(id: SessionId, source: string, iface: Option<nat>, found: bool, openable: bool) returns (r: Result<SessionId, Failure>)
      requires Valid() && id !in s.sessions
      modifies this
      ensures Valid()
      ensures iface.Some? && !found ==> r == Err(InterfaceNotFound) && s == old(s)
      ensures !(iface.Some? && !found) ==>
                s == Step(old(s), StartCapture(id, source, iface, openable), limit) && r == if openable then Ok(id) else Err(WriterFailed)
    {
      hide PcapNgWriter.Valid, Accounted;
      if iface.Some? && !found {
        return Err(InterfaceNotFound);
      }
      StepKeepsInv(s, StartCapture(id, source, iface, openable), limit);
      s := s.(sessions := s.sessions[id := Session(Running, source, iface, 0, 0, 0, false)]);
      var ok := RegisterActiveSession(id, openable);
      return if ok then Ok(id) else Err(WriterFailed);
    }

    /** `activate_existing_session`. */
    method ActivateExisting(id: SessionId, openable: bool) returns (active: bool)
      requires Valid()
      modifies this
      ensures Valid() && s == Step(old(s), Activate(id, openable), limit)
      ensures active <==> id in s.active
      ensures Activates(old(s), s, id, openable)
    {
      OperationsSpelledOut(s, Activate(id, openable), limit);
      hide Activates;
      hide PcapNgWriter.Valid, Accounted;
      StepKeepsInv(s, Activate(id, openable), limit);
      if id in s.active {
        return true;
      }
      if id !in s.sessions || s.sessions[id].status != Running {
        return false;
      }
      active := RegisterActiveSession(id, openable);
    }

    /** The final size is what the closed writer reports. */
    method Stop(id: SessionId) returns (r: Result<SessionId, Failure>)
      requires Valid()
      modifies this, owned
      ensures Valid() && s == Step(old(s), StopCapture(id), limit)
      ensures r.Ok? <==> id in old(s).sessions
      ensures id in old(s).active ==> s.sessions[id].fileSize == HEADER_SIZE + TotalCost(old(s).active[id].frames)
      ensures id in old(writers) ==> !old(writers)[id].open
      ensures Stops(old(s), s, id)
    {
      StepKeepsInv(s, StopCapture(id), limit);
      OperationsSpelledOut(s, StopCapture(id), limit);
      StepOnOne(s, id, limit);
      SizeOfActive(s, id);
      assert Wired();
      hide *;
      var size := PopAndMeasure(id);
      if id in s.sessions {
        SaveStopped(id, size);
        r := Ok(id);
      } else {
        r := Err(NotFound);
      }
      BothValid();
    }

    lemma BothValid()
      requires Inv(s, limit) && Wired()
      ensures Valid()
    {
    }

    method SaveStopped(id: SessionId, size: Option<nat>)
      requires Wired() && id in s.sessions
      modifies this`s
      ensures Wired() && s == old(s).(sessions := old(s).sessions[id := Stopped(old(s).sessions[id], size)])
      ensures size.Some? ==> s.sessions[id].fileSize == size.value
    {
      hide Wired;
      var session := s.sessions[id];
      if session.status == Running {
        session := session.(status := Completed);
      }
      Save(id, session.(fileSize := size.GetOr(session.fileSize)));
    }

    method Cancel(id: SessionId) returns (r: Result<SessionId, Failure>)
      requires Valid()
      modifies this, owned
      ensures Valid() && s == Step(old(s), CancelCapture(id), limit)
      ensures r.Ok? <==> id in old(s).sessions
      ensures id in old(writers) ==> !old(writers)[id].open
      ensures Cancels(old(s), s, id)
    {
      StepKeepsInv(s, CancelCapture(id), limit);
      OperationsSpelledOut(s, CancelCapture(id), limit);
      StepOnOne(s, id, limit);
      hide PcapNgWriter.Valid, Inv, Step, Wired, Cancels;
      Pop(id);
      if id !in s.sessions {
        return Err(NotFound);
      }
      Save(id, s.sessions[id].(status := Cancelled));
      return Ok(id);
    }

    method Delete(id: SessionId) returns (deleted: bool)
      requires Valid()
      modifies this, owned
      ensures Valid() && s == Step(old(s), DeleteCapture(id), limit)
      ensures deleted <==> id in old(s).sessions
      ensures id in old(writers) ==> !old(writers)[id].open
      ensures Deletes(old(s), s, id)
    {
      StepKeepsInv(s, DeleteCapture(id), limit);
      OperationsSpelledOut(s, DeleteCapture(id), limit);
      StepOnOne(s, id, limit);
      hide PcapNgWriter.Valid, Inv, Step, Wired, Deletes;
      Pop(id);
      deleted := id in s.sessions;
      DeleteRow(id);
    }

    method DeleteRow(id: SessionId)
      requires Wired()
      modifies this`s
      ensures Wired() && s == old(s).(sessions := old(s).sessions - {id})
    {
      hide PcapNgWriter.Valid;
      s := s.(sessions := s.sessions - {id});
    }

    /** Empties the active map and closes every writer. */
    method DeactivateAll()
      requires Wired()
      modifies this, owned
      ensures Wired() && s == old(s).(active := map[]) && writers == map[]
      ensures forall id | id in old(writers) :: !old(writers)[id].open
    {
      ghost var all := writers;
      var todo := writers.Keys;
      hide PcapNgWriter.Valid, Remaining, Wired;
      assert Remaining(all, todo) by { AllRemain(); }
      while todo != {}
        invariant Remaining(all, todo) && owned == old(owned) && s.sessions == old(s.sessions)
        decreases todo
      {
        var id :| id in todo;
        DeactivateNext(all, todo, id);
        todo := todo - {id};
      }
      NoneRemain(all);
    }

    /** Of the writers `all`, those of `todo` are still active and the others are closed. */
    ghost predicate Remaining(all: map<SessionId, PcapNgWriter>, todo: set<SessionId>)
      reads this, owned
    {
      && Wired() && todo == writers.Keys && todo <= all.Keys
      && (forall id | id in todo :: writers[id] == all[id])
      && (forall id | id in all :: all[id] in owned && (id !in todo ==> !all[id].open))
      && (forall i, j | i in all && j in all && i != j :: all[i] != all[j])
    }

    lemma AllRemain()
      requires Wired()
      ensures Remaining(writers, writers.Keys)
    {
    }

    lemma NoneRemain(all: map<SessionId, PcapNgWriter>)
      requires Remaining(all, {})
      ensures Wired() && writers == map[] && s == s.(active := map[]) && forall id | id in all :: !all[id].open
    {
      assert s.active == map[];
    }

    method DeactivateNext(ghost all: map<SessionId, PcapNgWriter>, ghost todo: set<SessionId>, id: SessionId)
      requires Remaining(all, todo) && id in todo
      modifies this, owned
      ensures Remaining(all, todo - {id}) && owned == old(owned) && s.sessions == old(s.sessions)
    {
      hide PcapNgWriter.Valid;
      Deactivate(id);
      assert writers.Keys == todo - {id};
    }

    method DeleteAllSessions() returns (count: nat)
      requires Valid()
      modifies this, owned
      ensures Valid() && s == Step(old(s), DeleteAll, limit) == System(map[], map[])
      ensures count == |old(s).sessions|
      ensures forall id | id in old(writers) :: !old(writers)[id].open
    {
      hide PcapNgWriter.Valid, Accounted;
      StepKeepsInv(s, DeleteAll, limit);
      DeactivateAll();
      count := |s.sessions|;
      s := System(map[], map[]);
    }

    /** `stop_all`: cancels what is still running among the active sessions. */
    method CancelAllActive()
      requires Valid()
      modifies this, owned
      ensures Valid() && s == Step(old(s), StopAll, limit)
      ensures forall id | id in old(writers) :: !old(writers)[id].open
      ensures CancelsAll(old(s), s)
    {
      StepKeepsInv(s, StopAll, limit);
      OperationsSpelledOut(s, StopAll, limit);
      CancelledAllIsStep(s, limit);
      hide PcapNgWriter.Valid, Inv, Step, CancelledAll, CancelsAll;
      var ids := s.active.Keys;
      DeactivateAll();
      CancelRows(ids);
    }

    method CancelRows(ids: set<SessionId>)
      requires writers == map[]
      modifies this
      ensures s == CancelledAll(old(s), ids) && writers == map[]
    {
      NothingCancelled(s);
      var todo := ids;
      ghost var done: set<SessionId> := {};
      hide CancelledAll;
      while todo != {}
        invariant done !! todo && done + todo == ids && s == CancelledAll(old(s), done) && writers == map[]
        decreases todo
      {
        var id :| id in todo;
        CancelOneMore(old(s), done, id);
        if id in s.sessions && s.sessions[id].status == Running {
          s := s.(sessions := s.sessions[id := s.sessions[id].(status := Cancelled)]);
        }
        todo := todo - {id};
        done := done + {id};
      }
      assert done == ids;
    }

    /** Lazy activation of every dormant session an ingest concerns. */
    method ActivateForIngest(source: string, iface: Option<nat>, canOpen: set<SessionId>)
      requires Valid()
      modifies this
      ensures Valid() && s == AllOpened(old(s), Dormant(old(s), source, iface), canOpen)
      ensures old(owned) <= owned && fresh(owned - old(owned))
    {
      var ids := Dormant(s, source, iface);
      OpeningKeepsInv(s, ids, canOpen, limit);
      var todo := ids;
      ghost var done: set<SessionId> := {};
      NothingOpened(s, canOpen);
      hide Inv, AllOpened, Dormant, PcapNgWriter.Valid;
      while todo != {}
        invariant done !! todo && done + todo == ids && s == AllOpened(old(s), done, canOpen)
        invariant Wired() && old(owned) <= owned && fresh(owned - old(owned))
        decreases todo
      {
        var id :| id in todo;
        OpenOneMore(old(s), done, id, canOpen);
        var ok := RegisterActiveSession(id, id in canOpen);
        todo := todo - {id};
        done := done + {id};
      }
      assert done == ids;
    }

    /** `handle_ingest`. `failures` gives the index of the first write that fails, per session. */
    method HandleIngest(source: string, iface: Option<nat>, envelope: Envelope, ticks: int, canOpen: set<SessionId>, failures: map<SessionId, nat>)
      requires Valid()
      modifies this, owned
      ensures Valid() && s == Step(old(s), Ingest(source, iface, envelope, ticks, canOpen, failures), limit)
      ensures Ingests(old(s), s, Ingest(source, iface, envelope, ticks, canOpen, failures), limit)
    {
      assert ActiveAreRunning(s);
      hide *;
      IngestSpelledOut(s, Ingest(source, iface, envelope, ticks, canOpen, failures), limit);
      IngestSteps(source, iface, envelope, ticks, canOpen, failures);
    }

    method IngestSteps(source: string, iface: Option<nat>, envelope: Envelope, ticks: int, canOpen: set<SessionId>, failures: map<SessionId, nat>)
      requires Valid()
      modifies this, owned
      ensures Valid() && s == Step(old(s), Ingest(source, iface, envelope, ticks, canOpen, failures), limit)
    {
      hide Inv, AllOpened, AllIngested, FramesOf, Wired;
      StepKeepsInv(s, Ingest(source, iface, envelope, ticks, canOpen, failures), limit);
      var targets := Targets(s.active, source, iface);
      if targets == {} {
        ActivateForIngest(source, iface, canOpen);
        targets := Targets(s.active, source, iface);
      }
      if envelope.Unusable? {
        return;
      }
      WriteTargets(targets, envelope, ticks, failures);
    }

    method WriteTargets(targets: set<SessionId>, e: Envelope, ticks: int, failures: map<SessionId, nat>)
      requires Valid() && e.Contents? && targets <= s.active.Keys
      modifies this, owned
      ensures Valid() && s == AllIngested(old(s), targets, FramesOf(e, ticks), failures, limit)
    {
      var totalBytes := |e.mesh| + |e.data| + ExtraBytes(e.extras);
      PayloadOfEnvelope(e, ticks);
      IngestingKeepsInv(s, targets, FramesOf(e, ticks), failures, limit);
      assert s.active.Keys <= s.sessions.Keys;
      hide Inv, AllIngested, FramesOf, Wired, TotalPayload;
      WriteEach(targets, e, ticks, totalBytes, failures);
    }

    method WriteEach(targets: set<SessionId>, e: Envelope, ticks: int, totalBytes: nat, failures: map<SessionId, nat>)
      requires Wired() && e.Contents? && totalBytes == TotalPayload(FramesOf(e, ticks))
      requires targets <= s.active.Keys && s.active.Keys <= s.sessions.Keys
      modifies this, owned
      ensures Wired() && owned == old(owned)
      ensures s == AllIngested(old(s), targets, FramesOf(e, ticks), failures, limit)
    {
      hide AllIngested, FramesOf, Wired, TotalPayload;
      NothingIngested(s, FramesOf(e, ticks), failures, limit);
      ghost var before, done: set<SessionId> := s, {};
      var todo := targets;
      while todo != {}
        invariant done !! todo && done + todo == targets
        invariant s == AllIngested(before, done, FramesOf(e, ticks), failures, limit)
        invariant Wired() && owned == old(owned)
        decreases todo
      {
        var id :| id in todo;
        WriteNext(before, done, id, e, ticks, totalBytes, failures);
        todo := todo - {id};
        done := done + {id};
      }
      assert done == targets;
    }

    method WriteNext(ghost before: System, ghost done: set<SessionId>, id: SessionId, e: Envelope, ticks: int, totalBytes: nat,
                     failures: map<SessionId, nat>)
      requires Wired() && e.Contents? && totalBytes == TotalPayload(FramesOf(e, ticks))
      requires done <= before.active.Keys && before.active.Keys <= before.sessions.Keys && id in before.active && id !in done
      requires s == AllIngested(before, done, FramesOf(e, ticks), failures, limit)
      modifies this, owned
      ensures Wired() && owned == old(owned)
      ensures s == AllIngested(before, done + {id}, FramesOf(e, ticks), failures, limit)
    {
      hide AllIngested, FramesOf, Wired, TotalPayload, OneIngested;
      IngestOneMore(before, done, id, FramesOf(e, ticks), failures, limit);
      WriteTarget(id, e, ticks, totalBytes, Get(failures, id));
    }

    /** One target: write the packets, then count them, or end the session if a write fails. */
    method WriteTarget(id: SessionId, e: Envelope, ticks: int, totalBytes: nat, failAt: Option<nat>)
      requires Wired() && id in s.active && id in s.sessions && e.Contents?
      requires totalBytes == TotalPayload(FramesOf(e, ticks))
      modifies this, owned
      ensures Wired() && owned == old(owned)
      ensures s == OneIngested(old(s), id, FramesOf(e, ticks), failAt, limit)
      ensures id in s.active || !old(writers)[id].open
    {
      hide FileBytes, TotalPayload, AllAccepted, FramesOf, PcapNgWriter.Valid, TotalCost;
      var written := WriteEnvelope(writers[id], e, ticks, failAt);
      if written {
        CountPacket(id, e, ticks, totalBytes, failAt);
      } else {
        Drop(id, s.sessions[id].(status := Failed));
      }
    }

    /** The counters are updated from the writer, then the size limit is enforced. */
    method CountPacket(id: SessionId, e: Envelope, ticks: int, totalBytes: nat, ghost failAt: Option<nat>)
      requires WiredBut(id) && id in s.active && id in s.sessions && e.Contents?
      requires writers[id].Valid() && writers[id].open && writers[id].frames == s.active[id].frames + FramesOf(e, ticks)
      requires totalBytes == TotalPayload(FramesOf(e, ticks)) && AllAccepted(FramesOf(e, ticks), failAt)
      modifies this, writers[id]
      ensures Wired() && owned == old(owned)
      ensures s == OneIngested(old(s), id, FramesOf(e, ticks), failAt, limit)
      ensures id in s.active || !old(writers)[id].open
    {
      hide FileBytes, TotalPayload, AllAccepted, FramesOf, PcapNgWriter.Valid, TotalCost, Wired;
      FileSize(writers[id].frames);
      var bytesWritten := writers[id].BytesWritten();
      var row := CountedRow(s.sessions[id], totalBytes, bytesWritten);
      if OverLimit(bytesWritten, limit) {
        Drop(id, LimitRow(row));
      } else {
        Keep(id, row, CountedActive(s.active[id], FramesOf(e, ticks)));
      }
    }

    method Keep(id: SessionId, row: Session, active: Active)
      requires WiredBut(id) && writers[id].Valid() && writers[id].open && writers[id].frames == active.frames
      modifies this`s
      ensures Wired() && s == System(old(s).sessions[id := row], old(s).active[id := active])
    {
      hide PcapNgWriter.Valid;
      s := System(s.sessions[id := row], s.active[id := active]);
    }

    /** Ends a session whose writer is still in the map, with its final row. */
    method Drop(id: SessionId, row: Session)
      requires WiredBut(id) && writers[id].Valid()
      modifies this, writers[id]
      ensures Wired() && s == System(old(s).sessions[id := row], old(s).active - {id})
      ensures writers == old(writers) - {id} && owned == old(owned) && !old(writers)[id].open
    {
      hide PcapNgWriter.Valid;
      var writer := writers[id];
      Unlink(id, row);
      hide Wired, WiredBut;
      CloseUnlinked(writer);
    }

    method Unlink(id: SessionId, row: Session)
      requires WiredBut(id)
      modifies this`s, this`writers
      ensures Wired() && s == System(old(s).sessions[id := row], old(s).active - {id})
      ensures writers == old(writers) - {id} && forall k | k in writers :: writers[k] != old(writers)[id]
    {
      hide PcapNgWriter.Valid;
      s := System(s.sessions[id := row], s.active - {id});
      writers := writers - {id};
    }

    /** Closing a writer that no session has leaves everything wired. */
    method CloseUnlinked(w: PcapNgWriter)
      requires Wired() && w.Valid() && forall k | k in writers :: writers[k] != w
      modifies w
      ensures Wired() && !w.open && w.Valid() && w.frames == old(w.frames)
    {
      hide PcapNgWriter.Valid;
      w.Close();
    }

    /** Wired, except for what the writer of `id` has accepted. */
    ghost predicate WiredBut(id: SessionId)
      reads this, owned
    {
      && id in writers && writers[id] in owned && writers.Keys == s.active.Keys
      && (forall k | k in writers && k != id :: writers[k] in owned && writers[k].Valid() && writers[k].open && writers[k].frames == s.active[k].frames)
      && (forall i, j | i in writers && j in writers && i != j :: writers[i] != writers[j])
    }
  }

  function CountedRow(row: Session, bytes: nat, size: nat): Session {
    row.(packetCount := row.packetCount + 1, byteCount := row.byteCount + bytes, fileSize := size)
  }

  function LimitRow(row: Session): Session {
    row.(status := Completed, maxSizeReached := true)
  }

  function CountedActive(a: Active, fs: seq<Frame>): (r: Active)
    ensures r.frames == a.frames + fs
  {
    a.(frames := a.frames + fs, rounds := a.rounds + 1)
  }

  lemma SizeOfActive(s: System, id: SessionId)
    requires ActiveAreRunning(s)
    ensures id in s.active ==> id in s.sessions && SizeOf(s, id) == Some(HEADER_SIZE + TotalCost(s.active[id].frames))
  {
    hide SizeOf, TotalCost;
    SizeOfIs(s, id);
  }

  lemma SizeOfIs(s: System, id: SessionId)
    ensures SizeOf(s, id) == if id in s.active then Some(HEADER_SIZE + TotalCost(s.active[id].frames)) else None
  {
    hide FileBytes, TotalCost;
    if id in s.active {
      FileSize(s.active[id].frames);
    }
  }

  /** What stop, cancel and delete do, once the session is out of the active map. */
  lemma StepOnOne(s: System, id: SessionId, limit: Option<nat>)
    requires ActiveAreRunning(s)
    ensures var t := s.(active := s.active - {id});
            && Step(s, StopCapture(id), limit) == (if id in s.sessions then t.(sessions := s.sessions[id := Stopped(s.sessions[id], SizeOf(s, id))]) else t)
            && Step(s, CancelCapture(id), limit) == (if id in s.sessions then t.(sessions := s.sessions[id := s.sessions[id].(status := Cancelled)]) else t)
            && Step(s, DeleteCapture(id), limit) == t.(sessions := s.sessions - {id})
  {
    hide Stopped;
  }

  lemma WithoutAbsent(s: System, id: SessionId)
    requires id !in s.active
    ensures s.(active := s.active - {id}) == s
  {
    assert s.active - {id} == s.active;
  }

  function CancelledAll(s: System, ids: set<SessionId>): System {
    s.(sessions := map id | id in s.sessions :: if id in ids && s.sessions[id].status == Running then s.sessions[id].(status := Cancelled) else s.sessions[id])
  }

  lemma NothingCancelled(s: System)
    ensures CancelledAll(s, {}) == s
  {
    assert CancelledAll(s, {}).sessions == s.sessions;
  }

  lemma CancelOneMore(s: System, done: set<SessionId>, id: SessionId)
    requires id !in done
    ensures var t := CancelledAll(s, done);
            CancelledAll(s, done + {id}) == (if id in t.sessions && t.sessions[id].status == Running
                                             then t.(sessions := t.sessions[id := t.sessions[id].(status := Cancelled)]) else t)
  {
    var t := CancelledAll(s, done);
    var u := if id in t.sessions && t.sessions[id].status == Running then t.(sessions := t.sessions[id := t.sessions[id].(status := Cancelled)]) else t;
    assert CancelledAll(s, done + {id}).sessions == u.sessions;
  }

  lemma CancelledAllIsStep(s: System, limit: Option<nat>)
    requires ActiveAreRunning(s)
    ensures CancelledAll(s.(active := map[]), s.active.Keys) == Step(s, StopAll, limit)
  {
    assert CancelledAll(s.(active := map[]), s.active.Keys).sessions == Step(s, StopAll, limit).sessions;
  }

  function OneIngested(s: System, id: SessionId, fs: seq<Frame>, failAt: Option<nat>, limit: Option<nat>): System
    requires id in s.active && id in s.sessions
  {
    var (row, a) := Ingested(s.sessions[id], s.active[id], fs, failAt, limit);
    System(s.sessions[id := row], if a.Some? then s.active[id := a.value] else s.active - {id})
  }

  lemma NothingOpened(s: System, canOpen: set<SessionId>)
    ensures AllOpened(s, {}, canOpen) == s
  {
    assert AllOpened(s, {}, canOpen).active == s.active;
    assert AllOpened(s, {}, canOpen).sessions == s.sessions;
  }

  lemma NothingIngested(s: System, fs: seq<Frame>, failures: map<SessionId, nat>, limit: Option<nat>)
    requires s.active.Keys <= s.sessions.Keys
    ensures AllIngested(s, {}, fs, failures, limit) == s
  {
    assert AllIngested(s, {}, fs, failures, limit).active == s.active;
    assert AllIngested(s, {}, fs, failures, limit).sessions == s.sessions;
  }

  lemma OpenOneMore(s: System, done: set<SessionId>, id: SessionId, canOpen: set<SessionId>)
    requires done <= s.sessions.Keys && id in s.sessions && id !in done && id !in s.active
    ensures id in AllOpened(s, done, canOpen).sessions
    ensures AllOpened(s, done + {id}, canOpen) == Opened(AllOpened(s, done, canOpen), id, id in canOpen)
  {
    var t := AllOpened(s, done, canOpen);
    assert AllOpened(s, done + {id}, canOpen).active == Opened(t, id, id in canOpen).active;
    assert AllOpened(s, done + {id}, canOpen).sessions == Opened(t, id, id in canOpen).sessions;
  }

  lemma IngestOneMore(s: System, done: set<SessionId>, id: SessionId, fs: seq<Frame>, failures: map<SessionId, nat>, limit: Option<nat>)
    requires done <= s.active.Keys && s.active.Keys <= s.sessions.Keys && id in s.active && id !in done
    ensures var t := AllIngested(s, done, fs, failures, limit);
            && id in t.active && id in t.sessions
            && AllIngested(s, done + {id}, fs, failures, limit) == OneIngested(t, id, fs, Get(failures, id), limit)
  {
    hide Ingested;
    var t := AllIngested(s, done, fs, failures, limit);
    var u, v := AllIngested(s, done + {id}, fs, failures, limit), OneIngested(t, id, fs, Get(failures, id), limit);
    assert u.sessions == v.sessions;
    assert u.active == v.active;
  }
}
