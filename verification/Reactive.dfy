/** The reactive publish limiter: a fixed-window attempt counter per node, behind an enabled flag
    that is refreshed from the stored configuration at most once per interval. */
module Reactive {
  import opened Prelude

  type NodeId = string

  datatype Attempt = Attempt(count: nat, first: int, last: int)

  type Attempts = map<NodeId, Attempt>

  /** `window` and `interval` are the attempt window and the refresh interval, in clock units. */
  datatype Settings = Settings(window: int, interval: int)

  /** `stored` is the enabled flag of the configuration row, which other processes also write;
      `loaded` says whether this process has read that row yet. */
  datatype State = State(enabled: bool, attempts: Attempts, lastRefresh: Option<int>, stored: bool, loaded: bool)

  // ------------------------------------------------------------ decisions

  /** `_should_inject_for_node`: the verdict and the attempt table afterwards. */
  function Decide(attempts: Attempts, node: NodeId, maxTries: int, now: int, window: int): (bool, Attempts) {
    if node == "" || maxTries <= 0 then (false, attempts)
    else if node !in attempts then (true, attempts[node := Attempt(1, now, now)])
    else
      var a := attempts[node];
      if now - a.first >= window then (true, attempts[node := Attempt(1, now, now)])
      else if a.count < maxTries then (true, attempts[node := Attempt(a.count + 1, a.first, now)])
      else (false, attempts)
  }

  predicate Throttled(s: State, now: int, interval: int) {
    s.lastRefresh.Some? && interval > 0 && now - s.lastRefresh.value < interval
  }

  /** `_refresh_reactive_state`. */
  function Refreshed(s: State, now: int, interval: int, force: bool): State {
    if !force && Throttled(s, now, interval) then s
    else
      var t := s.(lastRefresh := Some(now), loaded := true);
      if t.enabled != t.stored then t.(enabled := t.stored, attempts := map[]) else t
  }

  /** A packet reads the clock twice: at `now` for the refresh and at `decided` for its attempt.
      `passes` is the outcome of the gates in between: source node, listening interface, channel, echo
      and trigger port. */
  datatype Event =
    | Packet(now: int, decided: int, node: NodeId, maxTries: int, passes: bool)
    | Refresh(now: int)
    | Start(now: int)
    | Stop(now: int)
    | Store(now: int, enabled: bool)
    | Load(now: int)

  function Step(s: State, e: Event, c: Settings): (State, bool) {
    match e
    case Packet(now, decided, node, maxTries, passes) =>
      var t := Refreshed(s, now, c.interval, false);
      if !t.enabled || !passes then (t, false)
      else
        var (ok, attempts) := Decide(t.attempts, node, maxTries, decided, c.window);
        (t.(attempts := attempts), ok)
    case Refresh(now) => (Refreshed(s, now, c.interval, true), false)
    case Start(_) => (s.(enabled := true, stored := true, loaded := true, attempts := map[]), false)
    case Stop(_) => (s.(enabled := false, stored := s.stored && !s.loaded, attempts := map[]), false)
    case Store(_, enabled) => (s.(stored := enabled), false)
    case Load(_) => (s.(loaded := true), false)
  }

  /** A run from clock `clock`, with a clock that never goes back. */
  predicate Runs(clock: int, es: seq<Event>)
    decreases |es|
  {
    es != [] ==> clock <= es[0].now <= End(es[0]) && Runs(End(es[0]), es[1..])
  }

  /** The last clock reading of an event, and of a run. */
  function End(e: Event): int {
    if e.Packet? then e.decided else e.now
  }

  function EndOf(clock: int, es: seq<Event>): int {
    if es == [] then clock else End(es[|es| - 1])
  }

  function After(s: State, es: seq<Event>, c: Settings): State
    decreases |es|
  {
    if es == [] then s else After(Step(s, es[0], c).0, es[1..], c)
  }

  // ------------------------------------------------------------ sliding window

  /** One accepted injection, with the start of the fixed window it was counted in. */
  datatype Grant = Grant(time: int, first: int)

  function Counted(log: seq<Grant>, first: int): nat {
    if log == [] then 0
    else Counted(log[..|log| - 1], first) + if log[|log| - 1].first == first then 1 else 0
  }

  /** Injections in the half-open interval from `t` to `t + length`. */
  function InInterval(log: seq<Grant>, t: int, length: int): nat {
    if log == [] then 0
    else InInterval(log[..|log| - 1], t, length) + if t <= log[|log| - 1].time < t + length then 1 else 0
  }

  /** Whether the event empties the attempt table. */
  predicate Clears(s: State, e: Event, c: Settings) {
    match e
    case Packet(now, _, _, _, _) => Refreshed(s, now, c.interval, false).enabled != s.enabled
    case Refresh(now) => Refreshed(s, now, c.interval, true).enabled != s.enabled
    case Start(_) => true
    case Stop(_) => true
    case Store(_, _) => false
    case Load(_) => false
  }

  /** Injections for `node` since the attempt table was last emptied. */
  function LogAfter(s: State, es: seq<Event>, c: Settings, node: NodeId, log: seq<Grant>): seq<Grant>
    decreases |es|
  {
    if es == [] then log
    else LogAfter(Step(s, es[0], c).0, es[1..], c, node, LogStep(s, es[0], c, node, log))
  }

  function LogStep(s: State, e: Event, c: Settings, node: NodeId, log: seq<Grant>): seq<Grant> {
    (if Clears(s, e, c) then [] else log) + GrantOf(s, e, c, node)
  }

  /** What the event adds to the injections for `node`: one or none. */
  function GrantOf(s: State, e: Event, c: Settings, node: NodeId): seq<Grant> {
    var (t, injected) := Step(s, e, c);
    if injected && e.node == node && node in t.attempts then [Grant(e.decided, t.attempts[node].first)] else []
  }

  /** The batch that starts at `first` was opened by an injection at that very time. */
  ghost predicate Opened(log: seq<Grant>, first: int) {
    exists k :: 0 <= k < |log| && log[k] == Grant(first, first)
  }

  /** Batches are shorter than the window and their starts are a window apart. */
  ghost predicate Spaced(log: seq<Grant>, window: int) {
    && (forall i | 0 <= i < |log| :: log[i].first <= log[i].time < log[i].first + window)
    && (forall i, j | 0 <= i < j < |log| :: log[i].first == log[j].first || log[i].first + window <= log[j].first)
  }

  ghost predicate AllOpened(log: seq<Grant>) {
    forall i | 0 <= i < |log| :: Opened(log, log[i].first)
  }

  ghost predicate AtMostEach(log: seq<Grant>, m: nat) {
    forall f: int :: Counted(log, f) <= m
  }

  /** Injections come in spaced batches of at most `m`, each opened at its very start. */
  ghost predicate Batched(log: seq<Grant>, window: int, m: nat) {
    Spaced(log, window) && AllOpened(log) && AtMostEach(log, m)
  }

  /** The table's entry for the node describes the last batch. */
  ghost predicate EntryAgrees(attempts: Attempts, node: NodeId, log: seq<Grant>, clock: int) {
    if node !in attempts then log == []
    else
      && log != [] && attempts[node].first == log[|log| - 1].first && attempts[node].last == log[|log| - 1].time
      && attempts[node].last <= clock
      && attempts[node].count == Counted(log, attempts[node].first)
  }

  ghost predicate LimiterInv(s: State, node: NodeId, log: seq<Grant>, c: Settings, m: nat, clock: int) {
    Batched(log, c.window, m) && EntryAgrees(s.attempts, node, log, clock)
  }

  predicate TriesUpTo(es: seq<Event>, m: nat) {
    forall i | 0 <= i < |es| && es[i].Packet? :: es[i].maxTries <= m
  }

  lemma {:induction false} NothingCounted(log: seq<Grant>, first: int)
    requires forall i | 0 <= i < |log| :: log[i].first != first
    ensures Counted(log, first) == 0
  {
    if log != [] {
      NothingCounted(log[..|log| - 1], first);
    }
  }

  lemma StillOpened(log: seq<Grant>, g: Grant)
    requires AllOpened(log) && (g.first == g.time || Opened(log, g.first))
    ensures AllOpened(log + [g])
  {
    forall i | 0 <= i < |log| + 1
      ensures Opened(log + [g], (log + [g])[i].first)
    {
      var f := (log + [g])[i].first;
      if k :| 0 <= k < |log| && log[k] == Grant(f, f) {
        assert (log + [g])[k] == log[k];
      } else {
        assert i == |log| && (log + [g])[i] == g;
      }
    }
  }

  lemma AppendGrant(log: seq<Grant>, g: Grant, f: int)
    ensures Counted(log + [g], f) == Counted(log, f) + if g.first == f then 1 else 0
  {
    assert (log + [g])[..|log|] == log;
  }

  lemma StillAtMost(log: seq<Grant>, g: Grant, m: nat)
    requires AtMostEach(log, m) && Counted(log, g.first) < m
    ensures AtMostEach(log + [g], m)
  {
    forall f: int
      ensures Counted(log + [g], f) <= m
    {
      AppendGrant(log, g, f);
    }
  }

  lemma FirstsBefore(log: seq<Grant>, now: int, window: int)
    requires window > 0 && Spaced(log, window)
    requires log == [] || log[|log| - 1].first + window <= now
    ensures forall i | 0 <= i < |log| :: log[i].first + window <= now
  {
    forall i | 0 <= i < |log|
      ensures log[i].first + window <= now
    {
      assert log[i].first == log[|log| - 1].first || log[i].first + window <= log[|log| - 1].first;
    }
  }

  lemma OpenBatch(log: seq<Grant>, now: int, window: int, m: nat)
    requires window > 0 && m > 0 && Batched(log, window, m)
    requires log == [] || log[|log| - 1].first + window <= now
    ensures Batched(log + [Grant(now, now)], window, m) && Counted(log + [Grant(now, now)], now) == 1
  {
    hide Counted, AllOpened, AtMostEach;
    FirstsBefore(log, now, window);
    NothingCounted(log, now);
    StillOpened(log, Grant(now, now));
    StillAtMost(log, Grant(now, now), m);
    AppendGrant(log, Grant(now, now), now);
  }

  lemma JoinBatch(log: seq<Grant>, now: int, window: int, m: nat)
    requires log != [] && Batched(log, window, m)
    requires log[|log| - 1].time <= now < log[|log| - 1].first + window
    requires Counted(log, log[|log| - 1].first) < m
    ensures Batched(log + [Grant(now, log[|log| - 1].first)], window, m)
    ensures Counted(log + [Grant(now, log[|log| - 1].first)], log[|log| - 1].first) == Counted(log, log[|log| - 1].first) + 1
  {
    hide Counted, Opened, AtMostEach;
    var g := Grant(now, log[|log| - 1].first);
    StillOpened(log, g);
    StillAtMost(log, g, m);
    AppendGrant(log, g, g.first);
  }

  /** A granted request joins the current batch or opens a new one. */
  lemma GrantExtends(attempts: Attempts, node: NodeId, maxTries: int, now: int, log: seq<Grant>, window: int, m: nat, clock: int)
    requires window > 0 && Batched(log, window, m) && EntryAgrees(attempts, node, log, clock)
    requires clock <= now && maxTries <= m && Decide(attempts, node, maxTries, now, window).0
    ensures var t := Decide(attempts, node, maxTries, now, window).1;
            && node in t
            && Batched(log + [Grant(now, t[node].first)], window, m)
            && EntryAgrees(t, node, log + [Grant(now, t[node].first)], now)
  {
    hide Batched, Counted;
    if node !in attempts || now - attempts[node].first >= window {
      OpenBatch(log, now, window, m);
    } else {
      JoinBatch(log, now, window, m);
    }
  }

  lemma StepKeepsLimiter(s: State, e: Event, c: Settings, node: NodeId, log: seq<Grant>, m: nat, clock: int)
    requires c.window > 0 && LimiterInv(s, node, log, c, m, clock) && clock <= e.now <= End(e) && (e.Packet? ==> e.maxTries <= m)
    ensures LimiterInv(Step(s, e, c).0, node, LogStep(s, e, c, node, log), c, m, End(e))
  {
    hide Batched;
    EmptyBatched(c.window, m);
    var kept := if Clears(s, e, c) then [] else log;
    assert kept + [] == kept;
    if e.Packet? {
      var t := Refreshed(s, e.now, c.interval, false);
      assert LimiterInv(t, node, kept, c, m, clock);
      if t.enabled && e.passes && e.node == node && Decide(t.attempts, node, e.maxTries, e.decided, c.window).0 {
        GrantExtends(t.attempts, node, e.maxTries, e.decided, kept, c.window, m, clock);
      }
    }
  }

  lemma EmptyBatched(window: int, m: nat)
    ensures Batched([], window, m)
  {
  }

  lemma {:induction false} RunKeepsLimiter(s: State, es: seq<Event>, c: Settings, node: NodeId, log: seq<Grant>, m: nat, clock: int)
    returns (now: int)
    requires c.window > 0 && LimiterInv(s, node, log, c, m, clock) && Runs(clock, es) && TriesUpTo(es, m)
    ensures LimiterInv(After(s, es, c), node, LogAfter(s, es, c, node, log), c, m, now)
    ensures now == EndOf(clock, es)
    decreases |es|
  {
    hide LimiterInv, Step, LogStep;
    if es == [] {
      now := clock;
    } else {
      StepKeepsLimiter(s, es[0], c, node, log, m, clock);
      now := RunKeepsLimiter(Step(s, es[0], c).0, es[1..], c, node, LogStep(s, es[0], c, node, log), m, End(es[0]));
    }
  }

  lemma {:induction false} OneBatch(log: seq<Grant>, t: int, window: int, f: int)
    requires forall i | 0 <= i < |log| && t <= log[i].time < t + window :: log[i].first == f
    ensures InInterval(log, t, window) <= Counted(log, f)
  {
    if log != [] {
      OneBatch(log[..|log| - 1], t, window, f);
    }
  }

  lemma {:induction false} TwoBatches(log: seq<Grant>, t: int, window: int, f: int, g: int)
    requires f < g
    requires forall i | 0 <= i < |log| && t <= log[i].time < t + window :: log[i].first == f || log[i].first == g
    ensures InInterval(log, t, window) <= Counted(log, f) + Counted(log, g)
    ensures f < t && Opened(log, f) ==> InInterval(log, t, window) + 1 <= Counted(log, f) + Counted(log, g)
  {
    if log != [] {
      var init, last := log[..|log| - 1], log[|log| - 1];
      TwoBatches(init, t, window, f, g);
      if Opened(log, f) && last != Grant(f, f) {
        var k :| 0 <= k < |log| && log[k] == Grant(f, f);
        assert init[k] == Grant(f, f);
      }
    }
  }

  /** An interval as long as the window meets at most two batches, and when it meets two it misses
      the injection that opened the earlier one. */
  lemma AtMostTwoBatches(log: seq<Grant>, t: int, window: int, m: nat)
    requires window > 0 && m > 0 && Batched(log, window, m)
    ensures InInterval(log, t, window) <= 2 * m - 1
  {
    hide Counted, InInterval;
    if i :| 0 <= i < |log| && t <= log[i].time < t + window {
      var f := log[i].first;
      if j :| 0 <= j < |log| && t <= log[j].time < t + window && log[j].first != f {
        var g := log[j].first;
        if f < g {
          TwoBatches(log, t, window, f, g);
        } else {
          TwoBatches(log, t, window, g, f);
        }
      } else {
        OneBatch(log, t, window, f);
      }
    } else {
      OneBatch(log, t, window, 0);
    }
  }

  lemma {:induction false} EmptyInterval(log: seq<Grant>, t: int, length: int)
    requires length <= 0
    ensures InInterval(log, t, length) == 0
  {
    if log != [] {
      EmptyInterval(log[..|log| - 1], t, length);
    }
  }

  /** Sliding-window bound over whole runs: since the table was last emptied, every half-open
      interval of one window holds at most 2m - 1 injections per node, `m` being the largest limit
      in force. */
  lemma SlidingWindow(s: State, es: seq<Event>, c: Settings, node: NodeId, m: nat, clock: int, t: int)
    requires m > 0 && s.attempts == map[] && Runs(clock, es) && TriesUpTo(es, m)
    ensures InInterval(LogAfter(s, es, c, node, []), t, c.window) <= 2 * m - 1
  {
    if c.window > 0 {
      EmptyBatched(c.window, m);
      var now := RunKeepsLimiter(s, es, c, node, [], m, clock);
      AtMostTwoBatches(LogAfter(s, es, c, node, []), t, c.window, m);
    } else {
      EmptyInterval(LogAfter(s, es, c, node, []), t, c.window);
    }
  }

  /** `k` requests of node `n` at time `t`. */
  function Burst(t: int, m: nat, k: nat): (es: seq<Event>)
    ensures |es| == k && forall i | 0 <= i < k :: es[i] == Packet(t, t, "n", m, true)
  {
    seq(k, i => Packet(t, t, "n", m, true))
  }

  function Grants(g: Grant, k: nat): (log: seq<Grant>)
    ensures |log| == k && forall i | 0 <= i < k :: log[i] == g
  {
    seq(k, i => g)
  }

  /** The service is on and stays on, and the node's window started at `first`. */
  predicate Serving(s: State, first: int, count: nat, last: int) {
    s.enabled && s.stored && "n" in s.attempts && s.attempts["n"] == Attempt(count, first, last)
  }

  lemma GrantedNext(s: State, c: Settings, m: nat, first: int, count: nat, last: int, t: int, log: seq<Grant>)
    requires Serving(s, first, count, last) && t - first < c.window && count < m
    ensures var p := Packet(t, t, "n", m, true);
            && Serving(Step(s, p, c).0, first, count + 1, t)
            && LogStep(s, p, c, "n", log) == log + [Grant(t, first)]
  {
  }

  lemma OpenedNext(s: State, c: Settings, m: nat, t: int, log: seq<Grant>)
    requires s.enabled && s.stored && m > 0 && ("n" in s.attempts ==> t - s.attempts["n"].first >= c.window)
    ensures var p := Packet(t, t, "n", m, true);
            && Serving(Step(s, p, c).0, t, 1, t)
            && LogStep(s, p, c, "n", log) == log + [Grant(t, t)]
  {
  }

  /** As long as the window has room, every request of a burst is granted. */
  lemma {:induction false} BurstGranted(s: State, c: Settings, m: nat, first: int, count: nat, last: int, t: int, k: nat, log: seq<Grant>)
    requires Serving(s, first, count, last) && t - first < c.window && count + k <= m
    ensures var es := Burst(t, m, k);
            && Serving(After(s, es, c), first, count + k, if k == 0 then last else t)
            && LogAfter(s, es, c, "n", log) == log + Grants(Grant(t, first), k)
    decreases k
  {
    if k > 0 {
      GrantedNext(s, c, m, first, count, last, t, log);
      hide Step, LogStep, Serving;
      var p := Packet(t, t, "n", m, true);
      BurstGranted(Step(s, p, c).0, c, m, first, count + 1, t, t, k - 1, LogStep(s, p, c, "n", log));
      assert Burst(t, m, k)[1..] == Burst(t, m, k - 1);
      assert log + Grants(Grant(t, first), k) == log + [Grant(t, first)] + Grants(Grant(t, first), k - 1);
    }
  }

  lemma {:induction false} AfterConcat(s: State, a: seq<Event>, b: seq<Event>, c: Settings, node: NodeId, log: seq<Grant>)
    ensures After(s, a + b, c) == After(After(s, a, c), b, c)
    ensures LogAfter(s, a + b, c, node, log) == LogAfter(After(s, a, c), b, c, node, LogAfter(s, a, c, node, log))
    decreases |a|
  {
    hide Step, LogStep;
    if a == [] {
      assert a + b == b;
    } else {
      assert (a + b)[1..] == a[1..] + b;
      AfterConcat(Step(s, a[0], c).0, a[1..], b, c, node, LogStep(s, a[0], c, node, log));
    }
  }

  /** One request opens a window at 0; the rest of its grants come at its very end, and a full batch
      right after. */
  function WorstCase(m: nat, window: int): (es: seq<Event>)
    requires m > 0
  {
    Burst(0, m, 1) + (Burst(window - 1, m, m - 1) + (Burst(window, m, 1) + Burst(window, m, m - 1)))
  }

  function WorstLog(m: nat, window: int): seq<Grant>
    requires m > 0
  {
    Grants(Grant(0, 0), 1) + Grants(Grant(window - 1, 0), m - 1) + Grants(Grant(window, window), 1) + Grants(Grant(window, window), m - 1)
  }

  function On(): State {
    State(true, map[], None, true, true)
  }

  lemma WorstCaseLog(m: nat, c: Settings)
    requires m > 0 && c.window > 1
    ensures LogAfter(On(), WorstCase(m, c.window), c, "n", []) == WorstLog(m, c.window)
  {
    var w := c.window;
    var e0, e1, e2, e3 := Burst(0, m, 1), Burst(w - 1, m, m - 1), Burst(w, m, 1), Burst(w, m, m - 1);
    var l0 := Grants(Grant(0, 0), 1);
    var l1 := l0 + Grants(Grant(w - 1, 0), m - 1);
    var l2 := l1 + Grants(Grant(w, w), 1);
    OpenedNext(On(), c, m, 0, []);
    OneEvent(On(), c, Packet(0, 0, "n", m, true), e0, []);
    var s1 := After(On(), e0, c);
    assert LogAfter(On(), e0, c, "n", []) == l0;
    BurstGranted(s1, c, m, 0, 1, 0, w - 1, m - 1, l0);
    var s2 := After(s1, e1, c);
    OpenedNext(s2, c, m, w, l1);
    OneEvent(s2, c, Packet(w, w, "n", m, true), e2, l1);
    var s3 := After(s2, e2, c);
    assert LogAfter(s2, e2, c, "n", l1) == l2;
    BurstGranted(s3, c, m, w, 1, w, w, m - 1, l2);
    hide After, LogAfter, Step, LogStep, Burst, Grants;
    AfterConcat(On(), e0, e1 + (e2 + e3), c, "n", []);
    AfterConcat(s1, e1, e2 + e3, c, "n", l0);
    AfterConcat(s2, e2, e3, c, "n", l1);
  }

  lemma OneEvent(s: State, c: Settings, e: Event, es: seq<Event>, log: seq<Grant>)
    requires es == [e]
    ensures After(s, es, c) == Step(s, e, c).0 && LogAfter(s, es, c, "n", log) == LogStep(s, e, c, "n", log)
  {
    hide Step, LogStep;
    assert es[1..] == [];
  }

  lemma {:induction false} IntervalConcat(a: seq<Grant>, b: seq<Grant>, t: int, length: int)
    ensures InInterval(a + b, t, length) == InInterval(a, t, length) + InInterval(b, t, length)
  {
    if b == [] {
      assert a + b == a;
    } else {
      assert (a + b)[..|a + b| - 1] == a + b[..|b| - 1];
      IntervalConcat(a, b[..|b| - 1], t, length);
    }
  }

  lemma {:induction false} IntervalOfGrants(g: Grant, k: nat, t: int, length: int)
    ensures InInterval(Grants(g, k), t, length) == if t <= g.time < t + length then k else 0
  {
    if k > 0 {
      assert Grants(g, k)[..k - 1] == Grants(g, k - 1);
      IntervalOfGrants(g, k - 1, t, length);
    }
  }

  lemma {:induction false} RunsConcat(clock: int, a: seq<Event>, b: seq<Event>, t: int)
    requires Runs(clock, a) && Runs(t, b) && clock <= t && forall i | 0 <= i < |a| :: End(a[i]) <= t
    ensures Runs(clock, a + b)
    decreases |a|
  {
    if a == [] {
      assert a + b == b;
      RunsLater(clock, t, b);
    } else {
      assert (a + b)[1..] == a[1..] + b;
      RunsConcat(End(a[0]), a[1..], b, t);
    }
  }

  lemma RunsLater(clock: int, t: int, es: seq<Event>)
    requires clock <= t && Runs(t, es)
    ensures Runs(clock, es)
  {
  }

  lemma {:induction false} BurstRuns(t: int, m: nat, k: nat)
    ensures Runs(t, Burst(t, m, k))
    decreases k
  {
    if k > 0 {
      BurstRuns(t, m, k - 1);
      assert Burst(t, m, k)[1..] == Burst(t, m, k - 1);
    }
  }

  lemma WorstCaseRuns(m: nat, window: int)
    requires m > 0 && window > 0
    ensures Runs(0, WorstCase(m, window)) && TriesUpTo(WorstCase(m, window), m)
  {
    var e0, e1, e2, e3 := Burst(0, m, 1), Burst(window - 1, m, m - 1), Burst(window, m, 1), Burst(window, m, m - 1);
    BurstRuns(0, m, 1);
    BurstRuns(window - 1, m, m - 1);
    BurstRuns(window, m, 1);
    BurstRuns(window, m, m - 1);
    hide Runs;
    RunsConcat(window, e2, e3, window);
    RunsConcat(window - 1, e1, e2 + e3, window);
    RunsConcat(0, e0, e1 + (e2 + e3), window - 1);
  }

  /** The bound is attained for every limit and every window of at least two clock units: this run
      puts 2m - 1 injections into the interval of one window that starts at window - 1. */
  lemma SlidingWindowAttained(m: nat, c: Settings)
    requires m > 0 && c.window > 1
    ensures Runs(0, WorstCase(m, c.window)) && TriesUpTo(WorstCase(m, c.window), m)
    ensures InInterval(LogAfter(On(), WorstCase(m, c.window), c, "n", []), c.window - 1, c.window) == 2 * m - 1
  {
    var w := c.window;
    WorstCaseRuns(m, w);
    WorstCaseLog(m, c);
    var g0, g1, g2 := Grants(Grant(0, 0), 1), Grants(Grant(w - 1, 0), m - 1), Grants(Grant(w, w), 1);
    var g3 := Grants(Grant(w, w), m - 1);
    hide LogAfter, WorstCase, Runs, TriesUpTo;
    IntervalConcat(g0 + g1 + g2, g3, w - 1, w);
    IntervalConcat(g0 + g1, g2, w - 1, w);
    IntervalConcat(g0, g1, w - 1, w);
    IntervalOfGrants(Grant(0, 0), 1, w - 1, w);
    IntervalOfGrants(Grant(w - 1, 0), m - 1, w - 1, w);
    IntervalOfGrants(Grant(w, w), 1, w - 1, w);
    IntervalOfGrants(Grant(w, w), m - 1, w - 1, w);
  }

  /** Injections for `node` over the whole run, across every emptying of the table. */
  function History(s: State, es: seq<Event>, c: Settings, node: NodeId): seq<Grant>
    decreases |es|
  {
    if es == [] then [] else GrantOf(s, es[0], c, node) + History(Step(s, es[0], c).0, es[1..], c, node)
  }

  /** How often the table is emptied in the interval of one window that starts at `t`. */
  function ClearsWithin(s: State, es: seq<Event>, c: Settings, t: int): nat
    decreases |es|
  {
    if es == [] then 0
    else (if Clears(s, es[0], c) && t <= es[0].now < t + c.window then 1 else 0) + ClearsWithin(Step(s, es[0], c).0, es[1..], c, t)
  }

  /** The most injections one window's length can hold while the table is not emptied. */
  function Unbroken(c: Settings, m: nat): int
    requires m > 0
  {
    if m <= 1 || c.window <= 1 then m else 2 * m - 1
  }

  lemma UnbrokenBound(log: seq<Grant>, t: int, c: Settings, m: nat)
    requires c.window > 0 && m > 0 && Batched(log, c.window, m)
    ensures InInterval(log, t, c.window) <= Unbroken(c, m)
  {
    AtMostTwoBatches(log, t, c.window, m);
    if c.window == 1 {
      hide InInterval, Counted, AllOpened;
      OneBatch(log, t, c.window, t);
    }
  }

  /** The batches start no earlier than `t`. */
  ghost predicate StartsFrom(log: seq<Grant>, t: int) {
    forall i | 0 <= i < |log| :: log[i].first >= t
  }

  lemma FromStartBound(log: seq<Grant>, t: int, c: Settings, m: nat)
    requires c.window > 0 && Batched(log, c.window, m) && StartsFrom(log, t)
    ensures InInterval(log, t, c.window) <= m
  {
    hide InInterval, Counted, AllOpened;
    if i :| 0 <= i < |log| && t <= log[i].time < t + c.window {
      OneBatch(log, t, c.window, log[i].first);
    } else {
      OneBatch(log, t, c.window, 0);
    }
  }

  /** Injections before the last of `k` emptyings within the interval. */
  function Closed(c: Settings, m: nat, k: nat): int
    requires m > 0
  {
    if k == 0 then 0 else Unbroken(c, m) + (k - 1) * m
  }

  /** The run so far: `past` are the injections before the table was last emptied, `log` those since,
      and it has been emptied `k` times within the interval. */
  ghost predicate Windowed(past: seq<Grant>, log: seq<Grant>, k: nat, t: int, c: Settings, m: nat, clock: int)
    requires m > 0
  {
    && TimesUpTo(past, clock) && TimesUpTo(log, clock)
    && (k > 0 ==> clock >= t && StartsFrom(log, t))
    && (InInterval(past, t, c.window) <= Closed(c, m, k)
        || (InInterval(past, t, c.window) <= Closed(c, m, k + 1) && InInterval(log, t, c.window) == 0 && clock >= t + c.window))
  }

  lemma {:induction false} NoneWithin(log: seq<Grant>, t: int, length: int)
    requires forall i | 0 <= i < |log| :: !(t <= log[i].time < t + length)
    ensures InInterval(log, t, length) == 0
  {
    if log != [] {
      NoneWithin(log[..|log| - 1], t, length);
    }
  }

  lemma WindowedTotal(past: seq<Grant>, log: seq<Grant>, k: nat, t: int, c: Settings, m: nat, clock: int)
    requires c.window > 0 && m > 0 && Windowed(past, log, k, t, c, m, clock) && Batched(log, c.window, m)
    ensures InInterval(past + log, t, c.window) <= Closed(c, m, k + 1)
  {
    hide InInterval, Batched;
    IntervalConcat(past, log, t, c.window);
    UnbrokenBound(log, t, c, m);
    if k > 0 {
      FromStartBound(log, t, c, m);
      assert (k - 1) * m + m == k * m;
    }
  }

  lemma EmptyingKeepsWindowed(past: seq<Grant>, log: seq<Grant>, k: nat, t: int, c: Settings, m: nat, clock: int, now: int)
    requires c.window > 0 && m > 0 && Windowed(past, log, k, t, c, m, clock) && Batched(log, c.window, m) && clock <= now
    ensures Windowed(past + log, [], if t <= now < t + c.window then k + 1 else k, t, c, m, now)
  {
    WindowedTotal(past, log, k, t, c, m, clock);
    if now < t {
      NoneWithin(past + log, t, c.window);
    }
    hide Batched, Closed;
    assert InInterval([], t, c.window) == 0;
    hide InInterval;
  }

  lemma GrantKeepsWindowed(past: seq<Grant>, log: seq<Grant>, g: Grant, k: nat, t: int, c: Settings, m: nat, clock: int)
    requires m > 0 && Windowed(past, log, k, t, c, m, clock) && clock <= g.time
    requires g.first == g.time || (log != [] && g.first == log[|log| - 1].first)
    ensures Windowed(past, log + [g], k, t, c, m, g.time)
  {
    hide Closed;
    assert (log + [g])[..|log|] == log;
  }

  lemma LaterKeepsWindowed(past: seq<Grant>, log: seq<Grant>, k: nat, t: int, c: Settings, m: nat, clock: int, now: int)
    requires m > 0 && Windowed(past, log, k, t, c, m, clock) && clock <= now
    ensures Windowed(past, log, k, t, c, m, now)
  {
    hide Closed, InInterval;
  }

  lemma GrantFirst(s: State, e: Event, c: Settings, node: NodeId, log: seq<Grant>, clock: int)
    requires EntryAgrees(s.attempts, node, log, clock) && GrantOf(s, e, c, node) != []
    ensures var g, kept := GrantOf(s, e, c, node)[0], if Clears(s, e, c) then [] else log;
            GrantOf(s, e, c, node) == [g] && (g.first == g.time || (kept != [] && g.first == kept[|kept| - 1].first))
  {
    hide Counted;
  }

  lemma StepKeepsWindowed(s: State, e: Event, c: Settings, node: NodeId, past: seq<Grant>, log: seq<Grant>, k: nat, t: int, m: nat, clock: int)
    requires c.window > 0 && m > 0 && LimiterInv(s, node, log, c, m, clock) && Windowed(past, log, k, t, c, m, clock)
    requires clock <= e.now <= End(e)
    ensures var cleared := Clears(s, e, c);
            Windowed(if cleared then past + log else past, LogStep(s, e, c, node, log),
                     if cleared && t <= e.now < t + c.window then k + 1 else k, t, c, m, End(e))
  {
    var cleared := Clears(s, e, c);
    var past', kept := if cleared then past + log else past, if cleared then [] else log;
    var k' := if cleared && t <= e.now < t + c.window then k + 1 else k;
    if cleared {
      EmptyingKeepsWindowed(past, log, k, t, c, m, clock, e.now);
    } else {
      LaterKeepsWindowed(past, log, k, t, c, m, clock, e.now);
    }
    GrantIsNow(s, e, c, node);
    hide Windowed, Clears;
    if GrantOf(s, e, c, node) == [] {
      assert kept + [] == kept;
      LaterKeepsWindowed(past', kept, k', t, c, m, e.now, End(e));
    } else {
      GrantFirst(s, e, c, node, log, clock);
      GrantKeepsWindowed(past', kept, GrantOf(s, e, c, node)[0], k', t, c, m, e.now);
    }
  }

  lemma {:induction false} RunKeepsWindowed(s: State, es: seq<Event>, c: Settings, node: NodeId, past: seq<Grant>, log: seq<Grant>,
                                            k: nat, t: int, m: nat, clock: int)
    requires c.window > 0 && m > 0 && LimiterInv(s, node, log, c, m, clock) && Windowed(past, log, k, t, c, m, clock)
    requires Runs(clock, es) && TriesUpTo(es, m)
    ensures InInterval(past + log + History(s, es, c, node), t, c.window) <= Closed(c, m, k + ClearsWithin(s, es, c, t) + 1)
    decreases |es|
  {
    hide *;
    if es == [] {
      NothingLeft(s, c, node, past, log, t);
      BatchedLog(s, node, log, c, m, clock);
      WindowedTotal(past, log, k, t, c, m, clock);
    } else {
      var past', log', k' := WindowStep(s, es, c, node, past, log, k, t, m, clock);
      RunKeepsWindowed(Step(s, es[0], c).0, es[1..], c, node, past', log', k', t, m, End(es[0]));
    }
  }

  lemma BatchedLog(s: State, node: NodeId, log: seq<Grant>, c: Settings, m: nat, clock: int)
    requires LimiterInv(s, node, log, c, m, clock)
    ensures Batched(log, c.window, m) && EntryAgrees(s.attempts, node, log, clock)
  {
  }

  lemma NothingLeft(s: State, c: Settings, node: NodeId, past: seq<Grant>, log: seq<Grant>, t: int)
    ensures past + log + History(s, [], c, node) == past + log && ClearsWithin(s, [], c, t) == 0
  {
  }

  lemma WindowStep(s: State, es: seq<Event>, c: Settings, node: NodeId, past: seq<Grant>, log: seq<Grant>, k: nat, t: int, m: nat, clock: int)
    returns (past': seq<Grant>, log': seq<Grant>, k': nat)
    requires c.window > 0 && m > 0 && LimiterInv(s, node, log, c, m, clock) && Windowed(past, log, k, t, c, m, clock)
    requires es != [] && Runs(clock, es) && TriesUpTo(es, m)
    ensures var u, now := Step(s, es[0], c).0, End(es[0]);
            && LimiterInv(u, node, log', c, m, now) && Windowed(past', log', k', t, c, m, now)
            && Runs(now, es[1..]) && TriesUpTo(es[1..], m)
            && past' + log' + History(u, es[1..], c, node) == past + log + History(s, es, c, node)
            && k' + ClearsWithin(u, es[1..], c, t) == k + ClearsWithin(s, es, c, t)
  {
    var e := es[0];
    var cleared := Clears(s, e, c);
    past', log' := if cleared then past + log else past, LogStep(s, e, c, node, log);
    k' := if cleared && t <= e.now < t + c.window then k + 1 else k;
    assert clock <= e.now <= End(e) && (e.Packet? ==> e.maxTries <= m);
    hide LimiterInv, Windowed, Clears, Step, LogStep, History;
    StepKeepsLimiter(s, e, c, node, log, m, clock);
    StepKeepsWindowed(s, e, c, node, past, log, k, t, m, clock);
    LogSplit(s, es, c, node, past, log);
  }

  /** The grants before an event, its own, and those after it make up the same history however the
      log is split. */
  lemma LogSplit(s: State, es: seq<Event>, c: Settings, node: NodeId, past: seq<Grant>, log: seq<Grant>)
    requires es != []
    ensures (if Clears(s, es[0], c) then past + log else past) + LogStep(s, es[0], c, node, log) + History(Step(s, es[0], c).0, es[1..], c, node)
         == past + log + History(s, es, c, node)
  {
    var g, rest := GrantOf(s, es[0], c, node), History(Step(s, es[0], c).0, es[1..], c, node);
    assert History(s, es, c, node) == g + rest;
    hide Clears, Step, GrantOf, History;
    if Clears(s, es[0], c) {
      assert [] + g == g;
      assert (past + log) + g + rest == past + log + (g + rest);
    } else {
      assert past + (log + g) + rest == past + log + (g + rest);
    }
  }

  /** Over whole runs, emptyings included: an interval of one window within which the table is emptied
      `k` times holds at most 2m - 1 + km injections per node, and (k + 1)m if m is one or the window
      a single clock unit. */
  lemma WindowWithClears(s: State, es: seq<Event>, c: Settings, node: NodeId, m: nat, clock: int, t: int)
    requires m > 0 && s.attempts == map[] && Runs(clock, es) && TriesUpTo(es, m)
    ensures InInterval(History(s, es, c, node), t, c.window) <= Unbroken(c, m) + ClearsWithin(s, es, c, t) * m
  {
    if c.window > 0 {
      EmptyBatched(c.window, m);
      assert LimiterInv(s, node, [], c, m, clock);
      assert Windowed([], [], 0, t, c, m, clock) by { assert InInterval([], t, c.window) == 0; }
      hide LimiterInv, Windowed, InInterval, ClearsWithin;
      RunKeepsWindowed(s, es, c, node, [], [], 0, t, m, clock);
      assert [] + [] + History(s, es, c, node) == History(s, es, c, node);
    } else {
      EmptyInterval(History(s, es, c, node), t, c.window);
    }
  }

  // ------------------------------------------------------------ the worst runs

  predicate Up(s: State) {
    s.enabled && s.stored
  }

  lemma {:induction false} HistoryConcat(s: State, a: seq<Event>, b: seq<Event>, c: Settings, node: NodeId, t: int)
    ensures History(s, a + b, c, node) == History(s, a, c, node) + History(After(s, a, c), b, c, node)
    ensures ClearsWithin(s, a + b, c, t) == ClearsWithin(s, a, c, t) + ClearsWithin(After(s, a, c), b, c, t)
    decreases |a|
  {
    hide Step, GrantOf, Clears;
    if a == [] {
      assert a + b == b;
    } else {
      assert (a + b)[1..] == a[1..] + b;
      HistoryConcat(Step(s, a[0], c).0, a[1..], b, c, node, t);
    }
  }

  lemma UpStays(s: State, e: Event, c: Settings)
    requires Up(s) && e.Packet?
    ensures Up(Step(s, e, c).0) && !Clears(s, e, c)
  {
  }

  predicate OnlyPackets(es: seq<Event>) {
    forall i | 0 <= i < |es| :: es[i].Packet?
  }

  /** While the service is up, packets alone empty nothing, so the history is the log. */
  lemma {:induction false} UpRun(s: State, es: seq<Event>, c: Settings, node: NodeId, log: seq<Grant>, t: int)
    requires Up(s) && OnlyPackets(es)
    ensures Up(After(s, es, c)) && ClearsWithin(s, es, c, t) == 0
    ensures LogAfter(s, es, c, node, log) == log + History(s, es, c, node)
    decreases |es|
  {
    if es == [] {
      assert log + [] == log;
    } else {
      UpStays(s, es[0], c);
      hide Up, Step, GrantOf, Clears;
      UpRun(Step(s, es[0], c).0, es[1..], c, node, LogStep(s, es[0], c, node, log), t);
      assert log + GrantOf(s, es[0], c, node) + History(Step(s, es[0], c).0, es[1..], c, node) == log + History(s, es, c, node);
    }
  }

  /** The service is started again, and a full batch of requests follows at once: as `n` times. */
  function Refills(t: int, m: nat, n: nat): seq<Event>
    requires m > 0
  {
    if n == 0 then [] else Refill(t, m) + Refills(t, m, n - 1)
  }

  function Refill(t: int, m: nat): seq<Event>
    requires m > 0
  {
    [Start(t)] + FullBatch(t, m)
  }

  function FullBatch(t: int, m: nat): (es: seq<Event>)
    requires m > 0
    ensures |es| == m && forall i | 0 <= i < m :: es[i] == Packet(t, t, "n", m, true)
  {
    Burst(t, m, 1) + Burst(t, m, m - 1)
  }

  /** From an empty table a full batch is granted. */
  lemma FullBatchGranted(s: State, c: Settings, m: nat, t: int, from: int)
    requires m > 0 && c.window > 0 && Up(s) && s.attempts == map[] && from <= t < from + c.window
    ensures Up(After(s, FullBatch(t, m), c)) && ClearsWithin(s, FullBatch(t, m), c, from) == 0
    ensures InInterval(History(s, FullBatch(t, m), c, "n"), from, c.window) == m
  {
    var e0, e1 := Burst(t, m, 1), Burst(t, m, m - 1);
    OpenedNext(s, c, m, t, []);
    OneEvent(s, c, Packet(t, t, "n", m, true), e0, []);
    var s1, log := After(s, e0, c), [Grant(t, t)];
    assert LogAfter(s, e0, c, "n", []) == log;
    BurstGranted(s1, c, m, t, 1, t, t, m - 1, log);
    hide After, LogAfter, Step, LogStep, Burst, Serving, Up, History;
    AfterConcat(s, e0, e1, c, "n", []);
    UpRun(s, e0 + e1, c, "n", [], from);
    assert [] + History(s, e0 + e1, c, "n") == History(s, e0 + e1, c, "n");
    assert log == Grants(Grant(t, t), 1);
    IntervalConcat(log, Grants(Grant(t, t), m - 1), from, c.window);
    IntervalOfGrants(Grant(t, t), 1, from, c.window);
    IntervalOfGrants(Grant(t, t), m - 1, from, c.window);
  }

  lemma StartEmpties(s: State, c: Settings, t: int, from: int)
    requires from <= t < from + c.window
    ensures var u := After(s, [Start(t)], c);
            && Up(u) && u.attempts == map[]
            && ClearsWithin(s, [Start(t)], c, from) == 1 && History(s, [Start(t)], c, "n") == []
  {
    assert [Start(t)][1..] == [];
  }

  lemma RefillGranted(s: State, c: Settings, m: nat, t: int, from: int)
    requires m > 0 && c.window > 0 && from <= t < from + c.window
    ensures Up(After(s, Refill(t, m), c)) && ClearsWithin(s, Refill(t, m), c, from) == 1
    ensures InInterval(History(s, Refill(t, m), c, "n"), from, c.window) == m
  {
    StartEmpties(s, c, t, from);
    hide After, History, ClearsWithin, InInterval, FullBatch, Up;
    FullBatchGranted(After(s, [Start(t)], c), c, m, t, from);
    HistoryConcat(s, [Start(t)], FullBatch(t, m), c, "n", from);
    AfterConcat(s, [Start(t)], FullBatch(t, m), c, "n", []);
    assert [] + History(After(s, [Start(t)], c), FullBatch(t, m), c, "n") == History(After(s, [Start(t)], c), FullBatch(t, m), c, "n");
  }

  lemma RefillsUnfold(t: int, m: nat, n: nat)
    requires m > 0
    ensures Refills(t, m, n) == if n == 0 then [] else Refill(t, m) + Refills(t, m, n - 1)
  {
  }

  lemma NothingHappens(s: State, c: Settings, from: int)
    ensures ClearsWithin(s, [], c, from) == 0 && InInterval(History(s, [], c, "n"), from, c.window) == 0
  {
  }

  lemma {:induction false} RefillsGranted(s: State, c: Settings, m: nat, t: int, from: int, n: nat)
    requires m > 0 && c.window > 0 && from <= t < from + c.window
    ensures ClearsWithin(s, Refills(t, m, n), c, from) == n
    ensures InInterval(History(s, Refills(t, m, n), c, "n"), from, c.window) == n * m
    decreases n
  {
    hide *;
    RefillsUnfold(t, m, n);
    if n == 0 {
      NothingHappens(s, c, from);
    } else {
      var a, b := Refill(t, m), Refills(t, m, n - 1);
      RefillGranted(s, c, m, t, from);
      RefillsGranted(After(s, a, c), c, m, t, from, n - 1);
      TwoParts(s, a, b, c, from);
      assert n * m == m + (n - 1) * m;
    }
  }

  /** Emptyings and injections of two runs in a row add up. */
  lemma TwoParts(s: State, a: seq<Event>, b: seq<Event>, c: Settings, from: int)
    ensures ClearsWithin(s, a + b, c, from) == ClearsWithin(s, a, c, from) + ClearsWithin(After(s, a, c), b, c, from)
    ensures InInterval(History(s, a + b, c, "n"), from, c.window)
         == InInterval(History(s, a, c, "n"), from, c.window) + InInterval(History(After(s, a, c), b, c, "n"), from, c.window)
  {
    hide *;
    HistoryConcat(s, a, b, c, "n", from);
    IntervalConcat(History(s, a, c, "n"), History(After(s, a, c), b, c, "n"), from, c.window);
  }

  lemma BurstsRun(t: int, m: nat)
    requires m > 0
    ensures Runs(t, FullBatch(t, m)) && Runs(t, Refill(t, m))
  {
    BurstRuns(t, m, 1);
    BurstRuns(t, m, m - 1);
    RunsConcat(t, Burst(t, m, 1), Burst(t, m, m - 1), t);
    hide FullBatch;
    assert Runs(t, [Start(t)]) by { assert [Start(t)][1..] == []; }
    RunsConcat(t, [Start(t)], FullBatch(t, m), t);
  }

  lemma RefillEnds(t: int, m: nat)
    requires m > 0
    ensures forall i | 0 <= i < |Refill(t, m)| :: End(Refill(t, m)[i]) <= t
    ensures TriesUpTo(Refill(t, m), m)
  {
    hide FullBatch;
  }

  lemma {:induction false} RefillsRun(t: int, m: nat, n: nat)
    requires m > 0
    ensures Runs(t, Refills(t, m, n)) && TriesUpTo(Refills(t, m, n), m)
  {
    if n > 0 {
      RefillsRun(t, m, n - 1);
      BurstsRun(t, m);
      RefillEnds(t, m);
      hide Runs, Refill;
      RunsConcat(t, Refill(t, m), Refills(t, m, n - 1), t);
    }
  }

  /** The worst case without an emptying, then `k` restarts at its end. */
  function WorstRun(m: nat, window: int, k: nat): seq<Event>
    requires m > 0
  {
    (if window > 1 then WorstCase(m, window) else FullBatch(window, m)) + Refills(window, m, k)
  }

  /** The interval of one window in which `WorstRun` injects the most. */
  function WorstStart(window: int): int {
    if window > 1 then window - 1 else window
  }

  lemma WorstFirst(m: nat, c: Settings)
    requires m > 0 && c.window > 0
    ensures var es, from := if c.window > 1 then WorstCase(m, c.window) else FullBatch(c.window, m), WorstStart(c.window);
            && InInterval(History(On(), es, c, "n"), from, c.window) >= Unbroken(c, m) && ClearsWithin(On(), es, c, from) == 0
            && Runs(0, es) && TriesUpTo(es, m) && (forall i | 0 <= i < |es| :: End(es[i]) <= c.window)
  {
    var w := c.window;
    if w > 1 {
      SlidingWindowAttained(m, c);
      WorstCaseIsPackets(m, w);
      hide WorstCase, InInterval, LogAfter, Runs, TriesUpTo;
      UpRun(On(), WorstCase(m, w), c, "n", [], w - 1);
      assert [] + History(On(), WorstCase(m, w), c, "n") == History(On(), WorstCase(m, w), c, "n");
    } else {
      FullBatchGranted(On(), c, m, w, w);
      BurstsRun(w, m);
      RunsLater(0, w, FullBatch(w, m));
    }
  }

  lemma WorstCaseIsPackets(m: nat, window: int)
    requires m > 0 && window > 0
    ensures OnlyPackets(WorstCase(m, window)) && forall i | 0 <= i < |WorstCase(m, window)| :: End(WorstCase(m, window)[i]) <= window
  {
  }

  /** Every bound is attained: this run empties the table `k` times within the interval and injects
      2m - 1 + km there, or (k + 1)m if the window is a single clock unit. */
  lemma WindowWithClearsAttained(m: nat, c: Settings, k: nat)
    requires m > 0 && c.window > 0
    ensures var es, from := WorstRun(m, c.window, k), WorstStart(c.window);
            && Runs(0, es) && TriesUpTo(es, m) && ClearsWithin(On(), es, c, from) == k
            && InInterval(History(On(), es, c, "n"), from, c.window) == Unbroken(c, m) + k * m
  {
    var w := c.window;
    var a, b, from := if w > 1 then WorstCase(m, w) else FullBatch(w, m), Refills(w, m, k), WorstStart(w);
    WorstFirst(m, c);
    RefillsRun(w, m, k);
    assert On().attempts == map[];
    assert WorstRun(m, w, k) == a + b;
    assert WorstStart(w) <= w < WorstStart(w) + w;
    hide *;
    ThenRefills(a, m, c, k, from);
    RunsConcat(0, a, b, w);
    BothWithin(a, b, m);
    WindowWithClears(On(), a + b, c, "n", m, 0, from);
  }

  lemma BothWithin(a: seq<Event>, b: seq<Event>, m: nat)
    requires TriesUpTo(a, m) && TriesUpTo(b, m)
    ensures TriesUpTo(a + b, m)
  {
  }

  lemma ThenRefills(a: seq<Event>, m: nat, c: Settings, k: nat, from: int)
    requires m > 0 && c.window > 0 && from <= c.window < from + c.window
    requires InInterval(History(On(), a, c, "n"), from, c.window) >= Unbroken(c, m) && ClearsWithin(On(), a, c, from) == 0
    ensures var es := a + Refills(c.window, m, k);
            && ClearsWithin(On(), es, c, from) == k
            && InInterval(History(On(), es, c, "n"), from, c.window) >= Unbroken(c, m) + k * m
  {
    hide *;
    RefillsGranted(After(On(), a, c), c, m, c.window, from, k);
    TwoParts(On(), a, Refills(c.window, m, k), c, from);
  }

  /** In every run under limit `m`, an interval of one window within which the table is emptied `k`
      times holds at most `bound` injections per node. */
  ghost predicate Limited(c: Settings, m: nat, k: nat, bound: int) {
    forall s: State, es, node, clock, t |
      s.attempts == map[] && Runs(clock, es) && TriesUpTo(es, m) && ClearsWithin(s, es, c, t) == k ::
      InInterval(History(s, es, c, node), t, c.window) <= bound
  }

  /** The exact bound for an interval with `k` emptyings is 2m - 1 + km, or (k + 1)m if m is one or
      the window a single clock unit. */
  lemma BoundIff(c: Settings, m: nat, k: nat, bound: int)
    requires m > 0 && c.window > 0
    ensures Limited(c, m, k, bound) <==> bound >= Unbroken(c, m) + k * m
  {
    forall s: State, es, node, clock, t |
      s.attempts == map[] && Runs(clock, es) && TriesUpTo(es, m) && ClearsWithin(s, es, c, t) == k
      ensures InInterval(History(s, es, c, node), t, c.window) <= Unbroken(c, m) + k * m
    {
      WindowWithClears(s, es, c, node, m, clock, t);
    }
    hide History, InInterval, Runs, TriesUpTo, WorstRun, ClearsWithin, Unbroken;
    WindowWithClearsAttained(m, c, k);
    assert On().attempts == map[];
  }

  /** The limit holds per sliding window, as a reader might expect of `max_tries`, if and only if the
      table is not emptied within the window and the limit is one or the window a single clock unit. */
  lemma LimitHoldsIff(c: Settings, m: nat, k: nat)
    requires m > 0 && c.window > 0
    ensures Limited(c, m, k, m) <==> k == 0 && (m <= 1 || c.window <= 1)
  {
    BoundIff(c, m, k, m);
    hide Limited;
    assert k > 0 ==> k * m >= m;
  }

  lemma {:induction false} BatchInInterval(log: seq<Grant>, f: int, from: int, to: int)
    requires forall i | 0 <= i < |log| && log[i].first == f :: from <= log[i].time < to
    ensures Counted(log, f) <= InInterval(log, from, to - from)
  {
    if log != [] {
      BatchInInterval(log[..|log| - 1], f, from, to);
    }
  }

  /** Times of a batch never exceed the last attempt. */
  ghost predicate TimesUpTo(log: seq<Grant>, clock: int) {
    forall i | 0 <= i < |log| :: log[i].time <= clock
  }

  lemma GrantIsNow(s: State, e: Event, c: Settings, node: NodeId)
    ensures GrantOf(s, e, c, node) != [] ==> e.Packet? && |GrantOf(s, e, c, node)| == 1 && GrantOf(s, e, c, node)[0].time == e.decided
  {
  }

  lemma {:induction false} RunTimes(s: State, es: seq<Event>, c: Settings, node: NodeId, log: seq<Grant>, clock: int)
    requires Runs(clock, es) && TimesUpTo(log, clock)
    ensures TimesUpTo(LogAfter(s, es, c, node, log), EndOf(clock, es))
    decreases |es|
  {
    if es != [] {
      GrantIsNow(s, es[0], c, node);
      hide Step, Clears, GrantOf;
      RunTimes(Step(s, es[0], c).0, es[1..], c, node, LogStep(s, es[0], c, node, log), End(es[0]));
    }
  }

  /** Windows in the table never start in the future. */
  ghost predicate FirstsUpTo(s: State, clock: int) {
    forall n | n in s.attempts :: s.attempts[n].first <= clock
  }

  lemma {:induction false} RunFirsts(s: State, es: seq<Event>, c: Settings, clock: int)
    requires Runs(clock, es) && FirstsUpTo(s, clock)
    ensures FirstsUpTo(After(s, es, c), EndOf(clock, es))
    decreases |es|
  {
    if es != [] {
      RunFirsts(Step(s, es[0], c).0, es[1..], c, End(es[0]));
    }
  }

  /** A request with a positive limit is refused only if that many injections were granted to the
      node within the window that ends at the request. */
  lemma RefusedOnlyWhenSpent(s: State, es: seq<Event>, c: Settings, node: NodeId, m: nat, clock: int, tries: int, now: int)
    requires s.attempts == map[] && Runs(clock, es) && TriesUpTo(es, m)
    requires now >= EndOf(clock, es) && node != "" && tries > 0
    requires !Decide(After(s, es, c).attempts, node, tries, now, c.window).0
    ensures InInterval(LogAfter(s, es, c, node, []), now - c.window + 1, c.window) >= tries
  {
    EmptyBatched(c.window, m);
    assert LimiterInv(s, node, [], c, m, clock) && FirstsUpTo(s, clock) && TimesUpTo([], clock);
    hide Runs, After, LogAfter, LimiterInv, FirstsUpTo, TimesUpTo, Counted, InInterval, EndOf, TriesUpTo, Batched;
    RunFirsts(s, es, c, clock);
    RunTimes(s, es, c, node, [], clock);
    PositiveWindow(After(s, es, c), node, tries, now, c, EndOf(clock, es));
    var last := RunKeepsLimiter(s, es, c, node, [], m, clock);
    BatchedLog(After(s, es, c), node, LogAfter(s, es, c, node, []), c, m, last);
    SpentInWindow(After(s, es, c).attempts, node, LogAfter(s, es, c, node, []), tries, now, c, m, last);
  }

  lemma PositiveWindow(s: State, node: NodeId, tries: int, now: int, c: Settings, clock: int)
    requires FirstsUpTo(s, clock) && clock <= now && node != "" && tries > 0
    requires !Decide(s.attempts, node, tries, now, c.window).0
    ensures c.window > 0
  {
  }

  lemma SpentInWindow(attempts: Attempts, node: NodeId, log: seq<Grant>, tries: int, now: int, c: Settings, m: nat, clock: int)
    requires Batched(log, c.window, m) && EntryAgrees(attempts, node, log, clock) && TimesUpTo(log, now)
    requires node != "" && tries > 0 && !Decide(attempts, node, tries, now, c.window).0
    ensures InInterval(log, now - c.window + 1, c.window) >= tries
  {
    hide Counted, InInterval, AllOpened, AtMostEach;
    BatchInInterval(log, attempts[node].first, now - c.window + 1, now + 1);
  }

  // ------------------------------------------------------------ bounded staleness

  predicate KeepsDisabled(es: seq<Event>) {
    forall i | 0 <= i < |es| :: !es[i].Start? && (es[i].Store? ==> !es[i].enabled)
  }

  /** What holds while the stored flag stays off: the runtime flag is off too, or was last
      refreshed no later than `d`. */
  predicate Winding(s: State, d: int) {
    !s.stored && (s.enabled && s.lastRefresh.Some? ==> s.lastRefresh.value <= d)
  }

  /** Once the stored flag is off from time `d` on, no packet whose refresh comes at or after `d` plus
      the refresh interval is injected, whatever packets, refreshes and stops come in between. */
  lemma {:induction false} DisablingTakesEffect(s: State, es: seq<Event>, c: Settings, d: int, i: nat)
    requires Winding(s, d) && KeepsDisabled(es)
    requires i < |es| && es[i].now >= d + c.interval
    requires forall j | 0 <= j < |es| :: es[j].now >= d
    ensures !Step(After(s, es[..i], c), es[i], c).1
    decreases |es|
  {
    if i > 0 {
      assert es[..i][0] == es[0] && es[..i][1..] == es[1..][..i - 1];
      DisablingTakesEffect(Step(s, es[0], c).0, es[1..], c, d, i - 1);
    }
  }

  /** The bound is on the refresh: a packet that was let through just before it is decided whenever its
      gates are done, here long after `d` plus the interval. */
  lemma DecidedLate()
    ensures var c, d, s := Settings(900, 2), 1, State(true, map[], Some(0), false, true);
            var p := Packet(1, 100, "n", 1, true);
            Winding(s, d) && d <= p.now < d + c.interval && p.decided >= d + c.interval && Step(s, p, c).1
  {
  }

  // ------------------------------------------------------------ stopping

  /** Off at run time and in the stored configuration. */
  predicate Off(s: State) {
    !s.enabled && !s.stored
  }

  /** Stopping a service that has read its configuration turns it off. */
  lemma StopTurnsOff(s: State, c: Settings, now: int)
    requires s.loaded
    ensures Off(Step(s, Stop(now), c).0)
  {
  }

  /** A service that is off injects nothing, whatever packets, refreshes, loads, stops and saves that
      keep it off come, until it is started or stored as on. */
  lemma {:induction false} OffStaysQuiet(s: State, es: seq<Event>, c: Settings, i: nat)
    requires Off(s) && i < |es|
    requires forall k | 0 <= k < i :: !es[k].Start? && (es[k].Store? ==> !es[k].enabled)
    ensures !Step(After(s, es[..i], c), es[i], c).1
    decreases |es|
  {
    if i > 0 {
      assert es[..i][0] == es[0] && es[..i][1..] == es[1..][..i - 1];
      OffStaysQuiet(Step(s, es[0], c).0, es[1..], c, i - 1);
    }
  }

  // ------------------------------------------------------------ what one call does, in its fields

  /** A refresh within the interval does nothing. Otherwise the runtime flag becomes the stored one,
      and the attempts are forgotten exactly if that changed it. */
  predicate RefreshedTo(before: State, after: State, now: int, interval: int, force: bool) {
    if !force && interval > 0 && before.lastRefresh.Some? && now < before.lastRefresh.value + interval then after == before
    else
      && after.lastRefresh == Some(now) && after.loaded && after.stored == before.stored && after.enabled == before.stored
      && after.attempts == if before.enabled == before.stored then before.attempts else map[]
  }

  /** One attempt of a node: refused without a node or a limit, and when the limit is spent within the
      window that the first attempt opened; otherwise counted, in a new window if the old one is over. */
  predicate DecidedTo(before: State, after: State, node: NodeId, maxTries: int, now: int, window: int, ok: bool) {
    var spent := node in before.attempts && now < before.attempts[node].first + window && before.attempts[node].count >= maxTries;
    && (ok <==> node != "" && maxTries > 0 && !spent)
    && (!ok ==> after == before)
    && (ok ==>
          && (after.enabled, after.stored, after.loaded, after.lastRefresh) == (before.enabled, before.stored, before.loaded, before.lastRefresh)
          && after.attempts.Keys == before.attempts.Keys + {node}
          && (forall n | n in before.attempts && n != node :: after.attempts[n] == before.attempts[n])
          && after.attempts[node].last == now
          && (if node in before.attempts && now < before.attempts[node].first + window
              then (after.attempts[node].count, after.attempts[node].first) == (before.attempts[node].count + 1, before.attempts[node].first)
              else (after.attempts[node].count, after.attempts[node].first) == (1, now)))
  }

  // ------------------------------------------------------------ the service object

  class ReactivePublisher {
    const settings: Settings
    var s: State

    constructor (settings: Settings, stored: bool)
      ensures this.settings == settings && s == State(false, map[], None, stored, false)
    {
      this.settings := settings;
      s := State(false, map[], None, stored, false);
    }

    method RefreshReactiveState(now: int, force: bool)
      modifies this
      ensures s == Refreshed(old(s), now, settings.interval, force)
      ensures RefreshedTo(old(s), s, now, settings.interval, force)
    {
      if !force && s.lastRefresh.Some? && settings.interval > 0 && now - s.lastRefresh.value < settings.interval {
        return;
      }
      s := s.(lastRefresh := Some(now), loaded := true);
      var desiredEnabled := s.stored;
      if s.enabled != desiredEnabled {
        s := s.(enabled := desiredEnabled, attempts := map[]);
      }
    }

    method ShouldInjectForNode(node: NodeId, maxTries: int, now: int) returns (ok: bool)
      modifies this
      ensures (ok, s.attempts) == Decide(old(s.attempts), node, maxTries, now, settings.window)
      ensures s == old(s).(attempts := s.attempts)
      ensures DecidedTo(old(s), s, node, maxTries, now, settings.window, ok)
    {
      if node == "" {
        return false;
      }
      var limit := Max(0, maxTries);
      if limit == 0 {
        return false;
      }
      if node !in s.attempts {
        s := s.(attempts := s.attempts[node := Attempt(1, now, now)]);
        return true;
      }
      var data := s.attempts[node];
      if now - data.first >= settings.window {
        data := Attempt(1, now, now);
        s := s.(attempts := s.attempts[node := data]);
        return true;
      }
      if data.count < limit {
        data := data.(count := data.count + 1, last := now);
        s := s.(attempts := s.attempts[node := data]);
        return true;
      }
      return false;
    }

    method StartReactiveService(now: int)
      modifies this
      ensures s == Step(old(s), Start(now), settings).0
      ensures s.enabled && s.stored && s.loaded && s.attempts == map[] && s.lastRefresh == old(s.lastRefresh)
    {
      s := s.(loaded := true, enabled := true);
      s := s.(stored := true);
      s := s.(attempts := map[]);
    }

    /** Before the configuration was ever read, the stored flag is left as it is. */
    method StopReactiveService(now: int)
      modifies this
      ensures s == Step(old(s), Stop(now), settings).0
      ensures !s.enabled && s.attempts == map[] && s.loaded == old(s.loaded) && s.lastRefresh == old(s.lastRefresh)
      ensures s.stored == if s.loaded then false else old(s.stored)
    {
      s := s.(enabled := false);
      if s.loaded {
        s := s.(stored := false);
      }
      s := s.(attempts := map[]);
    }

    /** The gating of `on_packet_received`; `injected` says whether a traceroute is to be sent. */
    method OnPacketReceived(node: NodeId, maxTries: int, passes: bool, now: int, decided: int) returns (injected: bool)
      modifies this
      ensures (s, injected) == Step(old(s), Packet(now, decided, node, maxTries, passes), settings)
      ensures exists refreshed ::
                && RefreshedTo(old(s), refreshed, now, settings.interval, false)
                && if refreshed.enabled && passes then DecidedTo(refreshed, s, node, maxTries, decided, settings.window, injected)
                   else s == refreshed && !injected
    {
      RefreshReactiveState(now, false);
      ghost var refreshed := s;
      hide RefreshedTo, DecidedTo;
      if !s.enabled || !passes {
        return false;
      }
      injected := ShouldInjectForNode(node, maxTries, decided);
    }
  }
}
