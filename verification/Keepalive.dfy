/** The keepalive check: successive half-open windows of last-seen times record each node that
    crosses from online to offline. */
module Keepalive {
  import opened Prelude

  const MIN_CHECK_INTERVAL_SECONDS: int := 30
  const MIN_OFFLINE_AFTER_SECONDS: int := 60

  type NodeId = nat

  datatype Scope = All | VirtualOnly | Selected

  datatype Node = Node(lastSeen: Option<int>, isVirtual: bool)

  datatype Note = Clear | InvalidPayload | Incomplete | ContextError(message: string) | PublishError(message: string)

  /** The configuration row. Times are seconds. `payloadOk` and `complete` stand for the checks of
      the publish fields. */
  datatype Config = Config(enabled: bool, payloadOk: bool, complete: bool, offlineAfter: int, checkInterval: int,
                           scope: Scope, lastRun: Option<int>, note: Note)

  datatype Row = Row(node: NodeId, lastSeen: int, offlineAt: int)

  /** `selected` is a table of its own, beside the row. */
  datatype State = State(nodes: map<NodeId, Node>, config: Config, selected: set<NodeId>, history: seq<Row>)

  function OfflineAfter(c: Config): int {
    Max(c.offlineAfter, MIN_OFFLINE_AFTER_SECONDS)
  }

  function CheckInterval(c: Config): int {
    Max(c.checkInterval, MIN_CHECK_INTERVAL_SECONDS)
  }

  /** `_scoped_nodes`. */
  predicate InScope(s: State, id: NodeId) {
    id in s.nodes && match s.config.scope {
      case All => true
      case VirtualOnly => s.nodes[id].isVirtual
      case Selected => id in s.selected
    }
  }

  datatype Plan = Skip | Reject(note: Note) | Record(previous: int, current: int)

  /** What a check at `now` is going to do: nothing, note a configuration error, or record the
      nodes last seen in the window (previous, current]. */
  function PlanOf(c: Config, now: int): Plan {
    if !c.enabled then Skip
    else if !c.payloadOk then Reject(InvalidPayload)
    else if !c.complete then Reject(Incomplete)
    else if c.lastRun.Some? && now - c.lastRun.value < CheckInterval(c) then Skip
    else
      var lastRun := c.lastRun.GetOr(now - CheckInterval(c));
      Record(lastRun - OfflineAfter(c), now - OfflineAfter(c))
  }

  predicate Crossed(s: State, id: NodeId, previous: int, current: int) {
    InScope(s, id) && s.nodes[id].lastSeen.Some? && previous < s.nodes[id].lastSeen.value <= current
  }

  function Transitioned(s: State, previous: int, current: int): set<NodeId> {
    set id | id in s.nodes && Crossed(s, id, previous, current)
  }

  /** `rows` lists every transitioned node once, in whatever order the database returns them. */
  ghost predicate Lists(rows: seq<Row>, s: State, previous: int, current: int) {
    && (forall i | 0 <= i < |rows| ::
          && Crossed(s, rows[i].node, previous, current)
          && rows[i] == Row(rows[i].node, s.nodes[rows[i].node].lastSeen.value, current))
    && (forall i, j | 0 <= i < j < |rows| :: rows[i].node != rows[j].node)
    && (forall id | id in s.nodes && Crossed(s, id, previous, current) :: exists i :: 0 <= i < |rows| && rows[i].node == id)
  }

  datatype Event =
    | Check(now: int, rows: seq<Row>, note: Note)
    | CrashedCheck(now: int, message: string)
    | Heard(now: int, id: NodeId, node: Node)
    | Configure(now: int, config: Config)
    | Select(now: int, ids: set<NodeId>)

  /** A configuration save writes every column of a row its request read earlier, `lastRun`
      included, so it may carry the time of any run that lies in the past. */
  ghost predicate Allowed(s: State, e: Event) {
    match e
    case Check(now, rows, _) =>
      (match PlanOf(s.config, now)
       case Record(previous, current) => Lists(rows, s, previous, current)
       case _ => rows == [])
    case Configure(now, config) => config.lastRun.Some? ==> config.lastRun.value <= now
    case _ => true
  }

  /** `run_check` with the rows it finds and the outcome of publishing, the error path of
      `run_keepalive_check`, nodes being heard, and configuration saves. */
  function Step(s: State, e: Event): State {
    match e
    case Check(now, rows, note) =>
      (match PlanOf(s.config, now)
       case Skip => s
       case Reject(reason) => s.(config := s.config.(lastRun := Some(now), note := reason))
       case Record(_, _) =>
         s.(config := s.config.(lastRun := Some(now), note := if rows == [] then Clear else note), history := s.history + rows))
    case CrashedCheck(now, message) => s.(config := s.config.(lastRun := Some(now), note := PublishError(message)))
    case Heard(_, id, node) => s.(nodes := s.nodes[id := node])
    case Configure(_, config) => s.(config := config)
    case Select(_, ids) => s.(selected := ids)
  }

  ghost predicate Runs(s: State, clock: int, es: seq<Event>)
    decreases |es|
  {
    es != [] ==> clock <= es[0].now && Allowed(s, es[0]) && Runs(Step(s, es[0]), es[0].now, es[1..])
  }

  ghost function After(s: State, clock: int, es: seq<Event>): State
    requires Runs(s, clock, es)
    decreases |es|
  {
    if es == [] then s else After(Step(s, es[0]), es[0].now, es[1..])
  }

  // ------------------------------------------------------------ rows of a pair

  function Rows(history: seq<Row>, id: NodeId, lastSeen: int): nat {
    if history == [] then 0
    else
      var r := history[|history| - 1];
      Rows(history[..|history| - 1], id, lastSeen) + if r.node == id && r.lastSeen == lastSeen then 1 else 0
  }

  lemma {:induction false} RowsConcat(a: seq<Row>, b: seq<Row>, id: NodeId, lastSeen: int)
    ensures Rows(a + b, id, lastSeen) == Rows(a, id, lastSeen) + Rows(b, id, lastSeen)
  {
    if b == [] {
      assert a + b == a;
    } else {
      assert (a + b)[..|a + b| - 1] == a + b[..|b| - 1];
      RowsConcat(a, b[..|b| - 1], id, lastSeen);
    }
  }

  lemma {:induction false} NoRows(rows: seq<Row>, id: NodeId, lastSeen: int)
    requires forall i | 0 <= i < |rows| :: rows[i].node != id || rows[i].lastSeen != lastSeen
    ensures Rows(rows, id, lastSeen) == 0
  {
    if rows != [] {
      NoRows(rows[..|rows| - 1], id, lastSeen);
    }
  }

  lemma OneRow(rows: seq<Row>, k: nat, id: NodeId, lastSeen: int)
    requires k < |rows| && rows[k].node == id && rows[k].lastSeen == lastSeen
    requires forall i | 0 <= i < |rows| && i != k :: rows[i].node != id
    ensures Rows(rows, id, lastSeen) == 1
  {
    assert rows == rows[..k] + ([rows[k]] + rows[k + 1..]);
    RowsConcat(rows[..k], [rows[k]] + rows[k + 1..], id, lastSeen);
    RowsConcat([rows[k]], rows[k + 1..], id, lastSeen);
    NoRows(rows[..k], id, lastSeen);
    NoRows(rows[k + 1..], id, lastSeen);
    assert [rows[k]][..0] == [];
  }

  /** The event is a check that records node `id`, last seen at `x`. */
  predicate Records(s: State, e: Event, id: NodeId, x: int) {
    && e.Check? && PlanOf(s.config, e.now).Record?
    && Crossed(s, id, PlanOf(s.config, e.now).previous, PlanOf(s.config, e.now).current)
    && s.nodes[id].lastSeen == Some(x)
  }

  /** A recording check adds one row for a pair in its window; nothing else ever adds one. */
  lemma StepAdds(s: State, e: Event, id: NodeId, x: int)
    requires Allowed(s, e)
    ensures Rows(Step(s, e).history, id, x) == Rows(s.history, id, x) + if Records(s, e, id, x) then 1 else 0
  {
    if e.Check? && PlanOf(s.config, e.now).Record? {
      RowsConcat(s.history, e.rows, id, x);
      if Records(s, e, id, x) {
        var k :| 0 <= k < |e.rows| && e.rows[k].node == id;
        OneRow(e.rows, k, id, x);
      } else {
        NoRows(e.rows, id, x);
      }
    }
  }

  // ------------------------------------------------------------ the cutoff

  /** A last-seen time is open while it lies after the cutoff: only then can a check record it. */
  predicate Open(c: Config, x: int) {
    c.lastRun.Some? ==> x > c.lastRun.value - OfflineAfter(c)
  }

  predicate Closes(s: State, e: Event, x: int) {
    Open(s.config, x) && !Open(Step(s, e).config, x)
  }

  predicate Reopens(s: State, e: Event, x: int) {
    !Open(s.config, x) && Open(Step(s, e).config, x)
  }

  predicate RunsInPast(s: State, clock: int) {
    s.config.lastRun.Some? ==> s.config.lastRun.value <= clock
  }

  lemma RecordingCloses(s: State, e: Event, id: NodeId, x: int)
    requires Records(s, e, id, x)
    ensures Closes(s, e, x)
  {
  }

  /** Only a save can reopen a closed time: one that writes back an older run, or raises the
      threshold, far enough for the time to lie after the cutoff again. */
  lemma ReopensIff(s: State, e: Event, clock: int, x: int)
    requires RunsInPast(s, clock) && clock <= e.now && Allowed(s, e)
    ensures RunsInPast(Step(s, e), e.now)
    ensures Reopens(s, e, x) <==>
              && e.Configure? && s.config.lastRun.Some? && x <= s.config.lastRun.value - OfflineAfter(s.config)
              && (e.config.lastRun.Some? ==> x > e.config.lastRun.value - OfflineAfter(e.config))
  {
  }

  /** All the ways an open pair can be passed over: a rejected or crashed check, a save that moves
      the cutoff past it, a first check whose window starts after it, and a recording check that
      finds the node out of scope or last seen at another time. */
  lemma PassedOverIff(s: State, e: Event, id: NodeId, x: int)
    requires Open(s.config, x)
    ensures Closes(s, e, x) && !Records(s, e, id, x) <==>
              || (e.CrashedCheck? && x <= e.now - OfflineAfter(s.config))
              || (e.Check? && PlanOf(s.config, e.now).Reject? && x <= e.now - OfflineAfter(s.config))
              || (e.Configure? && e.config.lastRun.Some? && x <= e.config.lastRun.value - OfflineAfter(e.config))
              || (e.Check? && PlanOf(s.config, e.now).Record? && x <= e.now - OfflineAfter(s.config)
                  && (x <= PlanOf(s.config, e.now).previous || !InScope(s, id) || s.nodes[id].lastSeen != Some(x)))
  {
  }

  // ------------------------------------------------------------ exactly how often

  /** The first event of the run that closes `x` is a check that records the pair. */
  ghost predicate Decided(s: State, clock: int, es: seq<Event>, id: NodeId, x: int)
    requires Runs(s, clock, es)
    decreases |es|
  {
    es != [] &&
    if Closes(s, es[0], x) then Records(s, es[0], id, x) else Decided(Step(s, es[0]), es[0].now, es[1..], id, x)
  }

  /** How often the run reopens `x` and then decides it by recording the pair. */
  ghost function Redecided(s: State, clock: int, es: seq<Event>, id: NodeId, x: int): nat
    requires Runs(s, clock, es)
    decreases |es|
  {
    if es == [] then 0
    else
      var t := Step(s, es[0]);
      (if Reopens(s, es[0], x) && Decided(t, es[0].now, es[1..], id, x) then 1 else 0)
      + Redecided(t, es[0].now, es[1..], id, x)
  }

  ghost function Reopenings(s: State, clock: int, es: seq<Event>, x: int): nat
    requires Runs(s, clock, es)
    decreases |es|
  {
    if es == [] then 0
    else (if Reopens(s, es[0], x) then 1 else 0) + Reopenings(Step(s, es[0]), es[0].now, es[1..], x)
  }

  /** The exact count, over every run of checks, failures, sightings and saves: one row if the pair
      is open and the run decides it by recording, and one more for each reopening after which it is
      decided so again. */
  lemma {:induction false} ExactCount(s: State, clock: int, es: seq<Event>, id: NodeId, x: int)
    requires Runs(s, clock, es)
    ensures Rows(After(s, clock, es).history, id, x)
         == Rows(s.history, id, x)
            + (if Open(s.config, x) && Decided(s, clock, es, id, x) then 1 else 0)
            + Redecided(s, clock, es, id, x)
    decreases |es|
  {
    if es != [] {
      StepAdds(s, es[0], id, x);
      if Records(s, es[0], id, x) {
        RecordingCloses(s, es[0], id, x);
      }
      hide Rows, Allowed, Step, Records, PlanOf, Crossed;
      ExactCount(Step(s, es[0]), es[0].now, es[1..], id, x);
    }
  }

  lemma {:induction false} RedecidedAtMost(s: State, clock: int, es: seq<Event>, id: NodeId, x: int)
    requires Runs(s, clock, es)
    ensures Redecided(s, clock, es, id, x) <= Reopenings(s, clock, es, x)
    decreases |es|
  {
    if es != [] {
      hide Allowed, Step, Records;
      RedecidedAtMost(Step(s, es[0]), es[0].now, es[1..], id, x);
    }
  }

  /** At most one row, and one more per reopening. */
  lemma RowsBound(s: State, clock: int, es: seq<Event>, id: NodeId, x: int)
    requires Runs(s, clock, es)
    ensures Rows(After(s, clock, es).history, id, x)
         <= Rows(s.history, id, x) + (if Open(s.config, x) then 1 else 0) + Reopenings(s, clock, es, x)
  {
    ExactCount(s, clock, es, id, x);
    RedecidedAtMost(s, clock, es, id, x);
  }

  /** Exactly once: as long as nothing reopens `x`, an open pair without a row gets exactly one if the
      event that closes it is a check that records it, and none otherwise. */
  lemma ExactlyOnceIff(s: State, clock: int, es: seq<Event>, id: NodeId, x: int)
    requires Runs(s, clock, es) && Open(s.config, x) && Rows(s.history, id, x) == 0
    requires Reopenings(s, clock, es, x) == 0
    ensures Rows(After(s, clock, es).history, id, x) == if Decided(s, clock, es, id, x) then 1 else 0
  {
    ExactCount(s, clock, es, id, x);
    RedecidedAtMost(s, clock, es, id, x);
  }

  /** A closed pair gets a further row if and only if some save reopens it and it is then decided by
      a check that records it. */
  lemma FurtherRowIff(s: State, clock: int, es: seq<Event>, id: NodeId, x: int)
    requires Runs(s, clock, es) && !Open(s.config, x)
    ensures Rows(After(s, clock, es).history, id, x) > Rows(s.history, id, x) <==> Redecided(s, clock, es, id, x) > 0
  {
    ExactCount(s, clock, es, id, x);
  }

  /** No save of the run changes the threshold. */
  predicate FixedThreshold(s: State, es: seq<Event>, off: int) {
    OfflineAfter(s.config) == off && forall i | 0 <= i < |es| && es[i].Configure? :: OfflineAfter(es[i].config) == off
  }

  /** Saves that write back a run older than the row's, and so old that `x` lies after its cutoff. */
  ghost function StaleSaves(s: State, clock: int, es: seq<Event>, off: int, x: int): nat
    requires Runs(s, clock, es)
    decreases |es|
  {
    if es == [] then 0
    else
      (if es[0].Configure? && es[0].config.lastRun != s.config.lastRun
          && (es[0].config.lastRun.Some? ==> x > es[0].config.lastRun.value - off) then 1 else 0)
      + StaleSaves(Step(s, es[0]), es[0].now, es[1..], off, x)
  }

  lemma {:induction false} ReopeningsAreStaleSaves(s: State, clock: int, es: seq<Event>, off: int, x: int)
    requires Runs(s, clock, es) && RunsInPast(s, clock) && FixedThreshold(s, es, off)
    ensures Reopenings(s, clock, es, x) <= StaleSaves(s, clock, es, off, x)
    decreases |es|
  {
    if es != [] {
      ReopensIff(s, es[0], clock, x);
      StepKeepsThreshold(s, es[0]);
      hide Allowed, Step, OfflineAfter;
      ReopeningsAreStaleSaves(Step(s, es[0]), es[0].now, es[1..], off, x);
    }
  }

  lemma StepKeepsThreshold(s: State, e: Event)
    ensures OfflineAfter(Step(s, e).config) == OfflineAfter(if e.Configure? then e.config else s.config)
  {
  }

  /** At most once: with a fixed threshold a pair gets at most one row, and one more per save that
      writes back a run from before the pair's cutoff; with up-to-date saves there is none. */
  lemma AtMostOnce(s: State, clock: int, es: seq<Event>, off: int, id: NodeId, x: int)
    requires Runs(s, clock, es) && RunsInPast(s, clock) && FixedThreshold(s, es, off)
    requires Rows(s.history, id, x) <= if Open(s.config, x) then 0 else 1
    ensures Rows(After(s, clock, es).history, id, x) <= 1 + StaleSaves(s, clock, es, off, x)
  {
    RowsBound(s, clock, es, id, x);
    ReopeningsAreStaleSaves(s, clock, es, off, x);
  }

  // ------------------------------------------------------------ changing the threshold

  /** A save of the up-to-date row with another threshold. Raising it from `o1` to `o2` reopens
      exactly the times of the stretch (L - o2, L - o1], lowering it closes exactly those of
      (L - o1, L - o2], `L` being the last run. A pair then gets a row over the rest of the run if
      and only if it lies after the new cutoff and is decided by a check that records it: a recorded
      pair of the first stretch is recorded twice, an open one of the second is lost. */
  lemma ThresholdChange(s: State, clock: int, e: Event, es: seq<Event>, id: NodeId, x: int)
    requires e.Configure? && e.config.lastRun == s.config.lastRun && s.config.lastRun.Some?
    requires Runs(s, clock, [e] + es) && Reopenings(Step(s, e), e.now, es, x) == 0
    ensures var last, o1, o2 := s.config.lastRun.value, OfflineAfter(s.config), OfflineAfter(e.config);
            && (Reopens(s, e, x) <==> last - o2 < x <= last - o1)
            && (Closes(s, e, x) <==> last - o1 < x <= last - o2)
            && Rows(After(s, clock, [e] + es).history, id, x)
               == Rows(s.history, id, x) + if x > last - o2 && Decided(Step(s, e), e.now, es, id, x) then 1 else 0
  {
    assert ([e] + es)[1..] == es;
    ExactCount(Step(s, e), e.now, es, id, x);
    RedecidedAtMost(Step(s, e), e.now, es, id, x);
  }

  // ------------------------------------------------------------ runs that go wrong

  function Example(off: int): State {
    State(map[7 := Node(Some(-70), false)], Config(true, true, true, off, 30, All, Some(-30), Clear), {}, [])
  }

  lemma RunsOne(s: State, clock: int, e: Event)
    requires clock <= e.now && Allowed(s, e)
    ensures Runs(s, clock, [e]) && After(s, clock, [e]) == Step(s, e)
  {
    assert [e][1..] == [];
  }

  lemma RunsMore(s: State, clock: int, e: Event, es: seq<Event>)
    requires clock <= e.now && Allowed(s, e) && Runs(Step(s, e), e.now, es)
    ensures Runs(s, clock, [e] + es) && After(s, clock, [e] + es) == After(Step(s, e), e.now, es)
  {
    assert ([e] + es)[1..] == es;
  }

  /** A check whose window holds the example's node records it. */
  lemma ExampleRecorded(s: State, now: int)
    requires s.nodes == Example(60).nodes && s.config.scope == All
    requires PlanOf(s.config, now).Record? && PlanOf(s.config, now).previous < -70 <= PlanOf(s.config, now).current
    ensures var r := Row(7, -70, PlanOf(s.config, now).current);
            && Allowed(s, Check(now, [r], Clear))
            && Step(s, Check(now, [r], Clear)) == s.(config := s.config.(lastRun := Some(now), note := Clear), history := s.history + [r])
            && Rows(s.history + [r], 7, -70) == Rows(s.history, 7, -70) + 1
  {
    var r := Row(7, -70, PlanOf(s.config, now).current);
    assert [r][0].node == 7;
    assert (s.history + [r])[..|s.history|] == s.history;
  }

  /** The example's node is recorded by a check at 0; a save follows; a check at 60, whose window
      holds the node's time again, records it once more. */
  lemma RecordedAgain(saved: Config, r1: Row, r2: Row)
    requires saved.lastRun.Some? && saved.lastRun.value <= 1 && saved.scope == All
    requires PlanOf(saved, 60).Record? && PlanOf(saved, 60).previous < -70 <= PlanOf(saved, 60).current
    requires r1 == Row(7, -70, -60) && r2 == Row(7, -70, PlanOf(saved, 60).current)
    ensures var es := [Check(0, [r1], Clear), Configure(1, saved), Check(60, [r2], Clear)];
            Runs(Example(60), 0, es) && Rows(After(Example(60), 0, es).history, 7, -70) == 2
  {
    var s := Example(60);
    var e1, e2, e3 := Check(0, [r1], Clear), Configure(1, saved), Check(60, [r2], Clear);
    ExampleRecorded(s, 0);
    var t := Step(s, e1);
    assert Allowed(t, e2);
    var u := Step(t, e2);
    ExampleRecorded(u, 60);
    hide Lists, Rows, Runs, After, Allowed, Step, PlanOf, Crossed;
    RunsOne(u, 1, e3);
    RunsMore(t, 0, e2, [e3]);
    RunsMore(s, 0, e1, [e2, e3]);
    assert [e1] + [e2, e3] == [e1, e2, e3] && [e2] + [e3] == [e2, e3];
    NoRows([], 7, -70);
  }

  /** A save of the row as it was read before a check makes the next check record the same
      transition again, with the threshold fixed. */
  lemma StaleSaveRepeats()
    ensures var s := Example(60);
            var es := [Check(0, [Row(7, -70, -60)], Clear), Configure(1, s.config), Check(60, [Row(7, -70, 0)], Clear)];
            && Runs(s, 0, es) && FixedThreshold(s, es, 60)
            && Rows(After(s, 0, es).history, 7, -70) == 2
  {
    RecordedAgain(Example(60).config, Row(7, -70, -60), Row(7, -70, 0));
  }

  /** So does raising the threshold in a save of the up-to-date row. */
  lemma RaisedThresholdRepeats()
    ensures var s := Example(60);
            var raised := s.config.(offlineAfter := 120, lastRun := Some(0));
            var es := [Check(0, [Row(7, -70, -60)], Clear), Configure(1, raised), Check(60, [Row(7, -70, -60)], Clear)];
            Runs(s, 0, es) && Rows(After(s, 0, es).history, 7, -70) == 2
  {
    RecordedAgain(Example(60).config.(offlineAfter := 120, lastRun := Some(0)), Row(7, -70, -60), Row(7, -70, -60));
  }

  /** Lowering the threshold, or a crashed check, closes the time of a node that was never recorded. */
  lemma LoweredThresholdLoses()
    ensures var s := Example(120);
            var lowered := s.config.(offlineAfter := 60, lastRun := Some(0));
            var es := [Check(0, [], Clear), Configure(1, lowered)];
            && Open(s.config, -70) && InScope(s, 7) && s.nodes[7].lastSeen == Some(-70)
            && Runs(s, 0, es) && !Open(After(s, 0, es).config, -70) && After(s, 0, es).history == []
  {
    var s := Example(120);
    var e1, e2 := Check(0, [], Clear), Configure(1, s.config.(offlineAfter := 60, lastRun := Some(0)));
    var c := s.config.(lastRun := Some(0));
    NothingToRecord(s, 0);
    assert Step(s, e1) == s.(config := c);
    RunsTwo(s, 0, e1, e2);
  }

  lemma NothingToRecord(s: State, now: int)
    requires PlanOf(s.config, now).Record? && Transitioned(s, PlanOf(s.config, now).previous, PlanOf(s.config, now).current) == {}
    ensures Allowed(s, Check(now, [], Clear))
  {
    var p := PlanOf(s.config, now);
    assert forall id | id in s.nodes && Crossed(s, id, p.previous, p.current) :: id in Transitioned(s, p.previous, p.current);
  }

  lemma RunsTwo(s: State, clock: int, e1: Event, e2: Event)
    requires clock <= e1.now <= e2.now && Allowed(s, e1) && Allowed(Step(s, e1), e2)
    ensures Runs(s, clock, [e1, e2]) && After(s, clock, [e1, e2]) == Step(Step(s, e1), e2)
  {
    hide Runs, After, Allowed, Step;
    RunsOne(Step(s, e1), e1.now, e2);
    RunsMore(s, clock, e1, [e2]);
    assert [e1] + [e2] == [e1, e2];
  }

  lemma RejectedCheckLoses()
    ensures var s := Example(60).(config := Example(60).config.(complete := false));
            var es := [Check(10, [], Clear)];
            && Open(s.config, -70) && InScope(s, 7) && s.nodes[7].lastSeen == Some(-70)
            && Runs(s, 0, es) && !Open(After(s, 0, es).config, -70) && After(s, 0, es).history == []
  {
    RunsOne(Example(60).(config := Example(60).config.(complete := false)), 0, Check(10, [], Clear));
  }

  lemma CrashedCheckLoses()
    ensures var s := Example(60);
            var es := [CrashedCheck(10, "")];
            && Open(s.config, -70) && InScope(s, 7) && s.nodes[7].lastSeen == Some(-70)
            && Runs(s, 0, es) && !Open(After(s, 0, es).config, -70) && After(s, 0, es).history == []
  {
    RunsOne(Example(60), 0, CrashedCheck(10, ""));
  }

  // ------------------------------------------------------------ what one check does, in its fields

  /** The node is one that the configuration watches. */
  ghost predicate Watched(s: State, id: NodeId) {
    id in s.nodes && (s.config.scope == VirtualOnly ==> s.nodes[id].isVirtual) && (s.config.scope == Selected ==> id in s.selected)
  }

  /** One row for each watched node last seen after `previous` and up to `current`, carrying that time
      and the window's end, and no other row. */
  ghost predicate RowsOfWindow(rows: seq<Row>, s: State, previous: int, current: int) {
    && (forall i | 0 <= i < |rows| ::
          var r := rows[i];
          Watched(s, r.node) && s.nodes[r.node].lastSeen == Some(r.lastSeen) && previous < r.lastSeen <= current && r.offlineAt == current)
    && (forall i, j | 0 <= i < j < |rows| :: rows[i].node != rows[j].node)
    && (forall id | Watched(s, id) && s.nodes[id].lastSeen.Some? && previous < s.nodes[id].lastSeen.value <= current ::
          exists i :: 0 <= i < |rows| && rows[i].node == id)
  }

  /** A disabled or early check does nothing; a configuration fault is noted with the time; otherwise
      the rows of the window are recorded, which reaches from the last run, or one interval ago, to
      now, both less the threshold. Intervals below 30 seconds and thresholds below 60 count as these. */
  ghost predicate Checks(before: State, after: State, rows: seq<Row>, now: int, note: Note) {
    var c := before.config;
    var interval, threshold := if c.checkInterval < 30 then 30 else c.checkInterval, if c.offlineAfter < 60 then 60 else c.offlineAfter;
    if !c.enabled then after == before && rows == []
    else if !c.payloadOk then after == before.(config := c.(lastRun := Some(now), note := InvalidPayload)) && rows == []
    else if !c.complete then after == before.(config := c.(lastRun := Some(now), note := Incomplete)) && rows == []
    else if c.lastRun.Some? && now < c.lastRun.value + interval then after == before && rows == []
    else
      && RowsOfWindow(rows, before, (if c.lastRun.Some? then c.lastRun.value else now - interval) - threshold, now - threshold)
      && after.nodes == before.nodes && after.selected == before.selected && after.history == before.history + rows
      && after.config == c.(lastRun := Some(now), note := if rows == [] then Clear else note)
  }

  lemma WatchedIff(s: State, id: NodeId)
    ensures InScope(s, id) <==> Watched(s, id)
  {
  }

  lemma ListedAreRows(rows: seq<Row>, s: State, previous: int, current: int)
    requires Lists(rows, s, previous, current)
    ensures RowsOfWindow(rows, s, previous, current)
  {
    forall id
      ensures InScope(s, id) <==> Watched(s, id)
    {
      WatchedIff(s, id);
    }
    hide InScope, Watched;
    forall i | 0 <= i < |rows|
      ensures var r := rows[i];
              Watched(s, r.node) && r.node in s.nodes && s.nodes[r.node].lastSeen == Some(r.lastSeen) && previous < r.lastSeen <= current && r.offlineAt == current
    {
      assert Crossed(s, rows[i].node, previous, current);
    }
    assert forall id | id in s.nodes && Crossed(s, id, previous, current) :: exists i :: 0 <= i < |rows| && rows[i].node == id;
    forall id | id in s.nodes && Watched(s, id) && s.nodes[id].lastSeen.Some? && previous < s.nodes[id].lastSeen.value <= current
      ensures exists i :: 0 <= i < |rows| && rows[i].node == id
    {
      assert Crossed(s, id, previous, current);
    }
  }

  // ------------------------------------------------------------ the service

  class KeepaliveService {
    var s: State

    constructor (nodes: map<NodeId, Node>, config: Config, selected: set<NodeId>)
      ensures s == State(nodes, config, selected, [])
    {
      s := State(nodes, config, selected, []);
    }

    /** The rows for the nodes of the window. */
    method Events(previous: int, current: int) returns (rows: seq<Row>)
      ensures Lists(rows, s, previous, current) && RowsOfWindow(rows, s, previous, current)
    {
      rows := [];
      var todo := Transitioned(s, previous, current);
      while todo != {}
        invariant todo <= Transitioned(s, previous, current)
        invariant forall i | 0 <= i < |rows| ::
                    && rows[i].node in Transitioned(s, previous, current) - todo
                    && rows[i] == Row(rows[i].node, s.nodes[rows[i].node].lastSeen.value, current)
        invariant forall i, j | 0 <= i < j < |rows| :: rows[i].node != rows[j].node
        invariant forall id | id in Transitioned(s, previous, current) - todo :: exists i :: 0 <= i < |rows| && rows[i].node == id
        decreases todo
      {
        var id :| id in todo;
        ghost var before, pending := rows, todo;
        rows := rows + [Row(id, s.nodes[id].lastSeen.value, current)];
        todo := todo - {id};
        assert rows[|before|].node == id;
        forall k | k in Transitioned(s, previous, current) - todo
          ensures exists i :: 0 <= i < |rows| && rows[i].node == k
        {
          if k != id {
            assert k in Transitioned(s, previous, current) - pending;
            var i :| 0 <= i < |before| && before[i].node == k;
            assert rows[i].node == k;
          }
        }
      }
      forall id | id in s.nodes && Crossed(s, id, previous, current)
        ensures exists i :: 0 <= i < |rows| && rows[i].node == id
      {
        assert id in Transitioned(s, previous, current) - todo;
      }
      assert Lists(rows, s, previous, current);
      hide Lists, RowsOfWindow, Transitioned;
      ListedAreRows(rows, s, previous, current);
    }

    /** `run_check`; `note` is the outcome of publishing to the transitioned nodes. */
    method RunCheck(now: int, note: Note) returns (count: nat, ghost rows: seq<Row>)
      modifies this
      ensures Allowed(old(s), Check(now, rows, note)) && s == Step(old(s), Check(now, rows, note))
      ensures count == if note.ContextError? then 0 else |rows|
      ensures Checks(old(s), s, rows, now, note)
    {
      hide Lists, RowsOfWindow;
      rows := [];
      var c := s.config;
      if !c.enabled {
        return 0, [];
      }
      if !c.payloadOk {
        s := s.(config := c.(lastRun := Some(now), note := InvalidPayload));
        return 0, [];
      }
      if !c.complete {
        s := s.(config := c.(lastRun := Some(now), note := Incomplete));
        return 0, [];
      }
      var offlineAfter, checkInterval := OfflineAfter(c), CheckInterval(c);
      if c.lastRun.Some? && now - c.lastRun.value < checkInterval {
        return 0, [];
      }
      var lastRun := c.lastRun.GetOr(now - checkInterval);
      var previousCutoff, currentCutoff := lastRun - offlineAfter, now - offlineAfter;
      // The source's guard against an empty window never fires: a whole interval has passed.
      assert previousCutoff < currentCutoff;
      var events := Events(previousCutoff, currentCutoff);
      rows := events;
      s := s.(history := s.history + events);
      s := s.(config := c.(lastRun := Some(now), note := if events == [] then Clear else note));
      return if note.ContextError? then 0 else |events|, events;
    }

    /** The error path of `run_keepalive_check`: the check is undone, its time and error are noted. */
    method RecordCrash(now: int, message: string)
      modifies this
      ensures s == Step(old(s), CrashedCheck(now, message))
      ensures s == old(s).(config := old(s).config.(lastRun := Some(now), note := PublishError(message)))
    {
      s := s.(config := s.config.(lastRun := Some(now), note := PublishError(message)));
    }

    /** `update_config`, over the row as its request read it earlier. False when validation fails. */
    method UpdateConfig(now: int, loaded: Config, edit: Edit, ids: Option<set<NodeId>>) returns (ok: bool)
      requires loaded.lastRun.Some? ==> loaded.lastRun.value <= now
      modifies this
      ensures ok <==> ValidConfig(Edited(loaded, edit))
      ensures ok <==>
                && (if edit.payloadOk.Some? then edit.payloadOk.value else loaded.payloadOk)
                && (if edit.offlineAfter.Some? then edit.offlineAfter.value else loaded.offlineAfter) >= 60
                && (if edit.checkInterval.Some? then edit.checkInterval.value else loaded.checkInterval) >= 30
                && ((if edit.enabled.Some? then edit.enabled.value else loaded.enabled) ==>
                      if edit.complete.Some? then edit.complete.value else loaded.complete)
      ensures !ok ==> s == old(s)
      ensures ok ==>
                && s.nodes == old(s.nodes) && s.history == old(s.history) && s.selected == (if ids.Some? then ids.value else old(s.selected))
                && s.config.enabled == (if edit.enabled.Some? then edit.enabled.value else loaded.enabled)
                && s.config.offlineAfter == (if edit.offlineAfter.Some? then edit.offlineAfter.value else loaded.offlineAfter)
                && s.config.checkInterval == (if edit.checkInterval.Some? then edit.checkInterval.value else loaded.checkInterval)
                && s.config.scope == (if edit.scope.Some? then edit.scope.value else loaded.scope)
                && s.config.lastRun == loaded.lastRun && s.config.note == loaded.note
      ensures ok ==> Allowed(old(s), Configure(now, Edited(loaded, edit)))
      ensures ok ==> s == var t := Step(old(s), Configure(now, Edited(loaded, edit)));
                          if ids.Some? then Step(t, Select(now, ids.value)) else t
    {
      var config := Edited(loaded, edit);
      EditedFields(loaded, edit);
      hide Edited, ValidConfig;
      if !ValidConfig(config) {
        return false;
      }
      s := s.(config := config);
      if ids.Some? {
        s := s.(selected := ids.value);
      }
      return true;
    }
  }

  /** The fields of a configuration request; None when absent. */
  datatype Edit = Edit(enabled: Option<bool>, payloadOk: Option<bool>, complete: Option<bool>,
                       offlineAfter: Option<int>, checkInterval: Option<int>, scope: Option<Scope>)

  /** The fields that are present overwrite those of the row. */
  function Edited(loaded: Config, edit: Edit): Config {
    Config(edit.enabled.GetOr(loaded.enabled), edit.payloadOk.GetOr(loaded.payloadOk), edit.complete.GetOr(loaded.complete),
           edit.offlineAfter.GetOr(loaded.offlineAfter), edit.checkInterval.GetOr(loaded.checkInterval),
           edit.scope.GetOr(loaded.scope), loaded.lastRun, loaded.note)
  }

  lemma EditedFields(loaded: Config, edit: Edit)
    ensures var c := Edited(loaded, edit);
            && c.enabled == (if edit.enabled.Some? then edit.enabled.value else loaded.enabled)
            && c.payloadOk == (if edit.payloadOk.Some? then edit.payloadOk.value else loaded.payloadOk)
            && c.complete == (if edit.complete.Some? then edit.complete.value else loaded.complete)
            && c.offlineAfter == (if edit.offlineAfter.Some? then edit.offlineAfter.value else loaded.offlineAfter)
            && c.checkInterval == (if edit.checkInterval.Some? then edit.checkInterval.value else loaded.checkInterval)
            && c.scope == (if edit.scope.Some? then edit.scope.value else loaded.scope)
            && c.lastRun == loaded.lastRun && c.note == loaded.note
            && (ValidConfig(c) <==> c.payloadOk && c.offlineAfter >= 60 && c.checkInterval >= 30 && (c.enabled ==> c.complete))
  {
  }

  predicate ValidConfig(c: Config) {
    c.payloadOk && c.offlineAfter >= MIN_OFFLINE_AFTER_SECONDS && c.checkInterval >= MIN_CHECK_INTERVAL_SECONDS && (c.enabled ==> c.complete)
  }
}
