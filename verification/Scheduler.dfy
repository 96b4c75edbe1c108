/** The periodic publishing queue: a tick queues the earliest due jobs, at most one hundred, and
    pushes each one period into the future; executions and edits run in between. */
module Scheduler {
  import opened Prelude

  const MAX_JOBS_PER_TICK: nat := 100
  const MIN_PERIOD_SECONDS: int := 30

  type JobId = nat

  datatype RunStatus = Idle | Success | Failure | Skipped

  /** Times are seconds. */
  datatype Job = Job(enabled: bool, period: int, nextRun: int, lastRun: Option<int>, status: RunStatus)

  type Jobs = map<JobId, Job>

  /** `get_period_timedelta`. */
  function Period(j: Job): int {
    Max(j.period, MIN_PERIOD_SECONDS)
  }

  predicate Due(j: Job, now: int) {
    j.enabled && j.nextRun <= now
  }

  function DueJobs(jobs: Jobs, now: int): set<JobId> {
    set id | id in jobs && Due(jobs[id], now)
  }

  function Requeued(j: Job, now: int): Job {
    j.(nextRun := now + Period(j))
  }

  /** The rows after a tick at `now` that queued exactly `queued`. */
  function AfterTick(jobs: Jobs, queued: set<JobId>, now: int): Jobs {
    map id | id in jobs :: if id in queued then Requeued(jobs[id], now) else jobs[id]
  }

  /** What one tick may queue: due jobs, as many as there are up to the limit, none of them due
      later than a due job left behind. Which of several jobs with one due time goes first is the
      database's choice. */
  ghost predicate Batch(jobs: Jobs, queued: set<JobId>, now: int) {
    && queued <= DueJobs(jobs, now)
    && |queued| == (if |DueJobs(jobs, now)| <= MAX_JOBS_PER_TICK then |DueJobs(jobs, now)| else MAX_JOBS_PER_TICK)
    && (forall p, q | p in queued && q in DueJobs(jobs, now) - queued :: jobs[p].nextRun <= jobs[q].nextRun)
  }

  // ------------------------------------------------------------ events

  datatype Outcome = Published | NotPublished

  /** The fields of a job edit that matter to scheduling, None when absent from the request, and
      whether the request holds any other field. */
  datatype Edit = Edit(enabled: Option<bool>, period: Option<int>, others: bool) {
    /** An empty request is answered without saving anything. */
    predicate Empty() {
      enabled == None && period == None && !others
    }
  }

  /** `loaded` is the row the editing request read before it saved all columns back. */
  datatype Event =
    | Tick(now: int, queued: set<JobId>)
    | Execute(id: JobId, now: int, outcome: Outcome)
    | Create(id: JobId, enabled: bool, period: int, now: int)
    | Update(id: JobId, loaded: Job, edit: Edit, now: int)
    | Delete(id: JobId, now: int)

  /** `update_periodic_job`: the saved row. */
  function Edited(loaded: Job, edit: Edit, now: int): Job {
    var j := loaded.(enabled := edit.enabled.GetOr(loaded.enabled), period := edit.period.GetOr(loaded.period));
    if Resets(loaded, edit) then j.(nextRun := now) else j
  }

  /** Re-enabling a job, or giving an enabled one a period, makes it due at once. */
  predicate Resets(loaded: Job, edit: Edit) {
    var enabled := edit.enabled.GetOr(loaded.enabled);
    (edit.enabled.Some? && !loaded.enabled && enabled) || (edit.period.Some? && enabled)
  }

  function Executed(j: Job, now: int, outcome: Outcome): Job {
    if !j.enabled then j.(lastRun := Some(now), status := Skipped)
    else j.(lastRun := Some(now), status := if outcome == Published then Success else Failure)
  }

  /** Validation rejects periods below the minimum. An edit may save a row deleted since it was
      read, which brings the row back. */
  ghost predicate Allowed(jobs: Jobs, e: Event) {
    match e
    case Tick(now, queued) => Batch(jobs, queued, now)
    case Execute(_, _, _) => true
    case Create(id, _, period, _) => id !in jobs && period >= MIN_PERIOD_SECONDS
    case Update(_, loaded, edit, now) => edit.Empty() || Edited(loaded, edit, now).period >= MIN_PERIOD_SECONDS
    case Delete(_, _) => true
  }

  function Step(jobs: Jobs, e: Event): Jobs {
    match e
    case Tick(now, queued) => AfterTick(jobs, queued, now)
    case Execute(id, now, outcome) => if id in jobs then jobs[id := Executed(jobs[id], now, outcome)] else jobs
    case Create(id, enabled, period, now) => jobs[id := Job(enabled, period, now, None, Idle)]
    case Update(id, loaded, edit, now) => if edit.Empty() then jobs else jobs[id := Edited(loaded, edit, now)]
    case Delete(id, _) => jobs - {id}
  }

  /** A run from `jobs` at time `clock`, with the clock strictly advancing from event to event. */
  ghost predicate Runs(jobs: Jobs, clock: int, es: seq<Event>)
    decreases |es|
  {
    es != [] ==> clock < es[0].now && Allowed(jobs, es[0]) && Runs(Step(jobs, es[0]), es[0].now, es[1..])
  }

  /** An event that leaves job `id` to the scheduler. */
  predicate LeavesAlone(e: Event, id: JobId) {
    (e.Update? || e.Delete? || e.Create?) ==> e.id != id
  }

  predicate AllLeaveAlone(es: seq<Event>, id: JobId) {
    forall i | 0 <= i < |es| :: LeavesAlone(es[i], id)
  }

  predicate Queues(e: Event, id: JobId) {
    e.Tick? && id in e.queued
  }

  function Ticks(es: seq<Event>): nat {
    if es == [] then 0 else (if es[0].Tick? then 1 else 0) + Ticks(es[1..])
  }

  // ------------------------------------------------------------ no starvation

  /** The jobs that may be queued before job `id`: enabled, and due no later than it. */
  function Ahead(jobs: Jobs, id: JobId): set<JobId>
    requires id in jobs
  {
    set k | k in jobs && k != id && jobs[k].enabled && jobs[k].nextRun <= jobs[id].nextRun
  }

  /** A save that writes back an outdated schedule: the row was queued or edited since the request
      read it. */
  predicate Stale(jobs: Jobs, e: Event) {
    e.Update? && !e.edit.Empty() && (e.id !in jobs || jobs[e.id].enabled != e.loaded.enabled || jobs[e.id].nextRun != e.loaded.nextRun)
  }

  /** The stale saves of the run up to the tick that queues job `id`. */
  function StaleSaves(jobs: Jobs, es: seq<Event>, id: JobId): nat
    decreases |es|
  {
    if es == [] || Queues(es[0], id) then 0
    else (if Stale(jobs, es[0]) then 1 else 0) + StaleSaves(Step(jobs, es[0]), es[1..], id)
  }

  /** A tick that passes over a due job queues a full batch from ahead of it, and none of those
      jobs is ahead of it afterwards. */
  lemma TickAdvances(jobs: Jobs, id: JobId, now: int, queued: set<JobId>)
    requires id in jobs && Due(jobs[id], now) && Batch(jobs, queued, now) && id !in queued
    ensures id in AfterTick(jobs, queued, now) && AfterTick(jobs, queued, now)[id] == jobs[id]
    ensures |Ahead(AfterTick(jobs, queued, now), id)| + MAX_JOBS_PER_TICK <= |Ahead(jobs, id)|
  {
    var before, after := Ahead(jobs, id), Ahead(AfterTick(jobs, queued, now), id);
    var due := DueJobs(jobs, now);
    assert id in due - queued;
    if |due| <= MAX_JOBS_PER_TICK {
      SubsetSize(queued + {id}, due);
      assert false;
    }
    assert queued <= before;
    assert after !! queued by {
      forall k | k in queued
        ensures k !in after
      {
        assert AfterTick(jobs, queued, now)[k].nextRun > now;
      }
    }
    assert after <= before;
    SubsetSize(after + queued, before);
  }

  /** Any other event lets at most one job in front of a due job, and only by a stale save. */
  lemma OtherEventAdvances(jobs: Jobs, id: JobId, e: Event)
    requires id in jobs && Due(jobs[id], e.now - 1) && Allowed(jobs, e) && !e.Tick? && LeavesAlone(e, id)
    ensures var t := Step(jobs, e);
            && id in t && t[id].enabled && t[id].nextRun == jobs[id].nextRun && t[id].period == jobs[id].period
            && |Ahead(t, id)| <= |Ahead(jobs, id)| + if Stale(jobs, e) then 1 else 0
  {
    var t := Step(jobs, e);
    var before, after := Ahead(jobs, id), Ahead(t, id);
    if Stale(jobs, e) {
      assert after <= before + {e.id};
      SubsetSize(after, before + {e.id});
    } else {
      assert after <= before;
      SubsetSize(after, before);
    }
  }

  /** No starvation, for any number of jobs: an enabled, due job with `r` jobs ahead of it is queued
      within (r + stale saves until then) / 100 + 1 ticks, whatever else happens in between. */
  lemma {:induction false} NoStarvation(jobs: Jobs, clock: int, es: seq<Event>, id: JobId) returns (at: nat)
    requires id in jobs && Due(jobs[id], clock) && Runs(jobs, clock, es) && AllLeaveAlone(es, id)
    requires Ticks(es) >= (|Ahead(jobs, id)| + StaleSaves(jobs, es, id)) / MAX_JOBS_PER_TICK + 1
    ensures at < |es| && Queues(es[at], id)
    ensures Ticks(es[..at]) <= (|Ahead(jobs, id)| + StaleSaves(jobs, es, id)) / MAX_JOBS_PER_TICK
    decreases |es|
  {
    var e, rest := es[0], es[1..];
    if Queues(e, id) {
      at := 0;
    } else {
      if e.Tick? {
        TickAdvances(jobs, id, e.now, e.queued);
      } else {
        OtherEventAdvances(jobs, id, e);
      }
      at := NoStarvation(Step(jobs, e), e.now, rest, id);
      at := at + 1;
      assert es[..at][1..] == rest[..at - 1];
    }
  }

  // ------------------------------------------------------------ minimum spacing

  /** The event neither removes job `id` nor moves its due time other than by queueing it: an edit of
      it is up to date and resets nothing, or saves nothing. */
  predicate Harmless(jobs: Jobs, e: Event, id: JobId) {
    && (e.Create? || e.Delete? ==> e.id != id)
    && (e.Update? && e.id == id ==> e.edit.Empty() || (!Stale(jobs, e) && !Resets(e.loaded, e.edit)))
  }

  predicate AllHarmless(jobs: Jobs, es: seq<Event>, id: JobId)
    decreases |es|
  {
    es != [] ==> Harmless(jobs, es[0], id) && AllHarmless(Step(jobs, es[0]), es[1..], id)
  }

  lemma {:induction false} LeftAloneIsHarmless(jobs: Jobs, es: seq<Event>, id: JobId)
    requires AllLeaveAlone(es, id)
    ensures AllHarmless(jobs, es, id)
    decreases |es|
  {
    if es != [] {
      LeftAloneIsHarmless(Step(jobs, es[0]), es[1..], id);
    }
  }

  /** The rows as event `i` of the run finds them. */
  function Before(jobs: Jobs, es: seq<Event>, i: nat): Jobs
    requires i < |es|
    decreases i
  {
    if i == 0 then jobs else Before(Step(jobs, es[0]), es[1..], i - 1)
  }

  /** A job whose edits are harmless is never queued before its due time. */
  lemma {:induction false} NotBeforeDue(jobs: Jobs, clock: int, es: seq<Event>, id: JobId, j: nat)
    requires id in jobs && Runs(jobs, clock, es) && AllHarmless(jobs, es, id)
    requires j < |es| && Queues(es[j], id)
    ensures es[j].now >= jobs[id].nextRun
    decreases |es|
  {
    var e, rest := es[0], es[1..];
    if j > 0 {
      var t := Step(jobs, e);
      assert id in t && t[id].nextRun >= jobs[id].nextRun;
      NotBeforeDue(t, e.now, rest, id, j - 1);
    }
  }

  /** Two queueings of a job whose edits are harmless are at least the period apart that the job had at
      the first of them, and never less than thirty seconds; execution outcomes make no difference. */
  lemma {:induction false} MinimumSpacing(jobs: Jobs, clock: int, es: seq<Event>, id: JobId, i: nat, j: nat)
    requires id in jobs && Runs(jobs, clock, es) && AllHarmless(jobs, es, id)
    requires i < j < |es| && Queues(es[i], id) && Queues(es[j], id)
    ensures id in Before(jobs, es, i)
    ensures es[j].now - es[i].now >= Max(Before(jobs, es, i)[id].period, MIN_PERIOD_SECONDS)
    ensures AllLeaveAlone(es, id) ==> Before(jobs, es, i)[id].period == jobs[id].period
    decreases |es|
  {
    var e, rest := es[0], es[1..];
    var t := Step(jobs, e);
    assert id in t && (LeavesAlone(e, id) ==> t[id].period == jobs[id].period);
    if i == 0 {
      NotBeforeDue(t, e.now, rest, id, j - 1);
    } else {
      MinimumSpacing(t, e.now, rest, id, i - 1, j - 1);
    }
  }

  /** An edit saves every column. One that resets nothing, saved after a tick queued the job, leaves
      the job due again at once if and only if it saves at all and its request read the due time of
      before that tick. */
  lemma EditRepeatsQueueingIff(jobs: Jobs, id: JobId, queued: set<JobId>, t: int, loaded: Job, edit: Edit, saved: int)
    requires id in queued && Batch(jobs, queued, t) && t < saved < t + Period(jobs[id])
    requires loaded.enabled && (loaded.nextRun <= t || loaded.nextRun == AfterTick(jobs, queued, t)[id].nextRun)
    requires edit.enabled != Some(false) && !Resets(loaded, edit)
    ensures Due(Step(AfterTick(jobs, queued, t), Update(id, loaded, edit, saved))[id], saved) <==> loaded.nextRun <= t && !edit.Empty()
  {
    assert id in DueJobs(jobs, t);
  }

  // ------------------------------------------------------------ runs that go wrong

  const RENAME: Edit := Edit(None, None, true)

  lemma RunsOne(jobs: Jobs, clock: int, e: Event)
    requires clock < e.now && Allowed(jobs, e)
    ensures Runs(jobs, clock, [e])
  {
    assert [e][1..] == [];
  }

  lemma RunsMore(jobs: Jobs, clock: int, e: Event, es: seq<Event>)
    requires clock < e.now && Allowed(jobs, e) && Runs(Step(jobs, e), e.now, es)
    ensures Runs(jobs, clock, [e] + es)
  {
    assert ([e] + es)[1..] == es;
  }

  lemma OnlyDueJob(jobs: Jobs, id: JobId, now: int)
    requires jobs.Keys == {id} && Due(jobs[id], now)
    ensures Batch(jobs, {id}, now)
  {
    assert DueJobs(jobs, now) == {id};
  }

  /** A job is renamed while a tick queues it: the save of the older row makes it due again, and it
      is queued twice within two seconds although its period is thirty. */
  lemma StaleSaveBreaksSpacing()
    ensures var j := Job(true, 30, 0, None, Idle);
            var es := [Tick(1, {1}), Update(1, j, RENAME, 2), Tick(3, {1})];
            Runs(map[1 := j], 0, es) && Queues(es[0], 1) && Queues(es[2], 1) && es[2].now - es[0].now == 2
  {
    var j := Job(true, 30, 0, None, Idle);
    var jobs: Jobs := map[1 := j];
    var e1, e2, e3 := Tick(1, {1}), Update(1, j, RENAME, 2), Tick(3, {1});
    SpacingSteps(j, jobs);
    hide Runs, Allowed, Step;
    RunsOne(Step(Step(jobs, e1), e2), 2, e3);
    RunsMore(Step(jobs, e1), 1, e2, [e3]);
    RunsMore(jobs, 0, e1, [e2, e3]);
    assert [e1] + [e2, e3] == [e1, e2, e3] && [e2] + [e3] == [e2, e3];
  }

  /** An up-to-date edit that gives the period, even the one it has, does the same. */
  lemma ResetBreaksSpacing()
    ensures var j := Job(true, 30, 0, None, Idle);
            var es := [Tick(1, {1}), Update(1, j.(nextRun := 31), Edit(None, Some(30), false), 2), Tick(3, {1})];
            && Runs(map[1 := j], 0, es) && !Stale(Before(map[1 := j], es, 1), es[1])
            && Queues(es[0], 1) && Queues(es[2], 1) && es[2].now - es[0].now == 2
  {
    var j := Job(true, 30, 0, None, Idle);
    var jobs: Jobs := map[1 := j];
    var e1, e2, e3 := Tick(1, {1}), Update(1, j.(nextRun := 31), Edit(None, Some(30), false), 2), Tick(3, {1});
    ResetSteps(j, jobs, e2);
    assert Before(jobs, [e1, e2, e3], 1) == Step(jobs, e1);
    hide Runs, Allowed, Step, Before, Stale;
    RunsOne(Step(Step(jobs, e1), e2), 2, e3);
    RunsMore(Step(jobs, e1), 1, e2, [e3]);
    RunsMore(jobs, 0, e1, [e2, e3]);
    assert [e1] + [e2, e3] == [e1, e2, e3] && [e2] + [e3] == [e2, e3];
  }

  lemma ResetSteps(j: Job, jobs: Jobs, e2: Event)
    requires j == Job(true, 30, 0, None, Idle) && jobs == map[1 := j]
    requires e2 == Update(1, j.(nextRun := 31), Edit(None, Some(30), false), 2)
    ensures Allowed(jobs, Tick(1, {1})) && Allowed(Step(jobs, Tick(1, {1})), e2) && !Stale(Step(jobs, Tick(1, {1})), e2)
    ensures Allowed(Step(Step(jobs, Tick(1, {1})), e2), Tick(3, {1}))
  {
    OnlyDueJob(jobs, 1, 1);
    assert Step(jobs, Tick(1, {1})) == map[1 := j.(nextRun := 31)];
    var u := Step(Step(jobs, Tick(1, {1})), e2);
    assert u == map[1 := j.(nextRun := 2)];
    OnlyDueJob(u, 1, 3);
    hide Batch;
  }

  lemma SpacingSteps(j: Job, jobs: Jobs)
    requires j == Job(true, 30, 0, None, Idle) && jobs == map[1 := j]
    ensures Allowed(jobs, Tick(1, {1})) && Allowed(Step(jobs, Tick(1, {1})), Update(1, j, RENAME, 2))
    ensures Allowed(Step(Step(jobs, Tick(1, {1})), Update(1, j, RENAME, 2)), Tick(3, {1}))
  {
    OnlyDueJob(jobs, 1, 1);
    OnlyDueJob(jobs, 1, 3);
    assert Step(Step(jobs, Tick(1, {1})), Update(1, j, RENAME, 2)) == jobs;
    hide Batch;
  }

  predicate Less(i: JobId, n: nat) {
    i < n
  }

  function Below(n: nat): (r: set<JobId>)
    ensures forall i: JobId :: i in r <==> i < n
  {
    set i: JobId | i < n && Less(i, n)
  }

  lemma {:induction false} BelowSize(n: nat)
    ensures |Below(n)| == n
  {
    if n > 0 {
      BelowSize(n - 1);
      assert Below(n) == Below(n - 1) + {n - 1};
    }
  }

  /** Jobs 0 to 98 are due at 5, job 99 at 0, and job 100 at 6. */
  function Crowd(): Jobs {
    map id | id in Below(101) :: Job(true, 30, if id == 99 then 0 else if id == 100 then 6 else 5, None, Idle)
  }

  /** Job 99 is queued at 1 and renamed at 7 from the row as it was. Before that save job 100 has 99
      jobs ahead, so the next tick should queue it; with the save it has 100, and is passed over. */
  lemma StaleSaveDelays()
    ensures var stale := Crowd()[99];
            var jobs := Step(Crowd(), Tick(1, {99}));
            var es := [Update(99, stale, RENAME, 7), Tick(8, Below(100))];
            && Runs(Crowd(), 0, [Tick(1, {99})])
            && 100 in jobs && Due(jobs[100], 6) && |Ahead(jobs, 100)| == 99 && 99 / MAX_JOBS_PER_TICK + 1 == 1
            && Runs(jobs, 6, es) && AllLeaveAlone(es, 100) && Ticks(es) == 1 && !Queues(es[1], 100)
  {
    var stale := Crowd()[99];
    var e0, e1, e2 := Tick(1, {99}), Update(99, stale, RENAME, 7), Tick(8, Below(100));
    var jobs := Step(Crowd(), e0);
    DelaySteps(stale, jobs);
    CountTicks(e1, e2);
    assert AllLeaveAlone([e1, e2], 100);
    hide Runs, Allowed, Step, Crowd, Ahead, Ticks, Due, Below, AllLeaveAlone;
    RunsOne(Crowd(), 0, e0);
    RunsOne(Step(jobs, e1), 7, e2);
    RunsMore(jobs, 6, e1, [e2]);
    assert [e1] + [e2] == [e1, e2];
  }

  lemma DelaySteps(stale: Job, jobs: Jobs)
    requires stale == Crowd()[99] && jobs == Step(Crowd(), Tick(1, {99}))
    ensures Allowed(Crowd(), Tick(1, {99})) && Allowed(jobs, Update(99, stale, RENAME, 7))
    ensures Allowed(Step(jobs, Update(99, stale, RENAME, 7)), Tick(8, Below(100)))
    ensures 100 in jobs && Due(jobs[100], 6) && |Ahead(jobs, 100)| == 99
  {
    CrowdFirst();
    CrowdAhead(jobs);
    CrowdSecond();
    assert Step(jobs, Update(99, stale, RENAME, 7)) == Crowd();
    hide Batch, Crowd;
  }

  lemma CountTicks(e1: Event, e2: Event)
    requires !e1.Tick? && e2.Tick?
    ensures Ticks([e1, e2]) == 1
  {
    assert [e1, e2][1..] == [e2] && [e2][1..] == [];
    assert Ticks([e2]) == 1 + Ticks([]);
  }

  lemma CrowdFirst()
    ensures Batch(Crowd(), {99}, 1)
  {
    assert DueJobs(Crowd(), 1) == {99};
  }

  lemma CrowdAhead(jobs: Jobs)
    requires jobs == Step(Crowd(), Tick(1, {99}))
    ensures 100 in jobs && Due(jobs[100], 6) && |Ahead(jobs, 100)| == 99
  {
    assert jobs[99].nextRun == 31;
    assert Ahead(jobs, 100) == Below(99);
    BelowSize(99);
  }

  lemma CrowdSecond()
    ensures Batch(Crowd(), Below(100), 8)
  {
    var due, jobs := DueJobs(Crowd(), 8), Crowd();
    assert due == Below(101);
    assert forall p | p in Below(100) :: jobs[p].nextRun <= 5;
    assert due - Below(100) == {100} && jobs[100].nextRun == 6;
    BelowSize(100);
    BelowSize(101);
    hide DueJobs, Crowd, Below;
  }

  // ------------------------------------------------------------ the tasks

  predicate Earliest(jobs: Jobs, todo: set<JobId>, p: JobId)
    requires todo <= jobs.Keys
  {
    p in todo && forall q | q in todo :: jobs[p].nextRun <= jobs[q].nextRun
  }

  lemma {:induction false} EarliestExists(jobs: Jobs, todo: set<JobId>)
    requires todo != {} && todo <= jobs.Keys
    ensures exists p :: Earliest(jobs, todo, p)
    decreases todo
  {
    var p :| p in todo;
    if todo == {p} {
      assert Earliest(jobs, todo, p);
    } else {
      EarliestExists(jobs, todo - {p});
      var r :| Earliest(jobs, todo - {p}, r);
      assert Earliest(jobs, todo, if jobs[r].nextRun < jobs[p].nextRun then r else p);
    }
  }

  ghost function Members(ids: seq<JobId>): set<JobId> {
    set i | 0 <= i < |ids| :: ids[i]
  }

  ghost predicate EarliestFirst(jobs: Jobs, ids: seq<JobId>) {
    && (forall i | 0 <= i < |ids| :: ids[i] in jobs)
    && (forall i, j | 0 <= i < j < |ids| :: ids[i] != ids[j] && jobs[ids[i]].nextRun <= jobs[ids[j]].nextRun)
  }

  ghost predicate NoneEarlier(jobs: Jobs, batch: seq<JobId>, todo: set<JobId>) {
    Members(batch) <= jobs.Keys && todo <= jobs.Keys
    && forall p, q | p in Members(batch) && q in todo :: jobs[p].nextRun <= jobs[q].nextRun
  }

  /** Moving the earliest remaining job to the end of the batch keeps it sorted. */
  lemma Selected(jobs: Jobs, batch: seq<JobId>, todo: set<JobId>, p: JobId)
    requires todo <= jobs.Keys && Earliest(jobs, todo, p) && p !in Members(batch)
    requires EarliestFirst(jobs, batch) && NoneEarlier(jobs, batch, todo)
    ensures EarliestFirst(jobs, batch + [p]) && NoneEarlier(jobs, batch + [p], todo - {p})
    ensures Members(batch + [p]) == Members(batch) + {p}
  {
    ExtendMembers(batch, p);
    forall i | 0 <= i < |batch|
      ensures batch[i] != p && jobs[batch[i]].nextRun <= jobs[p].nextRun
    {
      assert batch[i] in Members(batch);
    }
  }

  /** What a tick does, spelled out: it queues only enabled jobs whose time has come, each once, in order
      of their times and at most a hundred; a due job stays behind only if a hundred were queued, none
      of them later than it. A queued job is due next one period from now, thirty seconds at least,
      and nothing else changes. */
  ghost predicate Ticked(before: Jobs, queued: seq<JobId>, after: Jobs, now: int) {
    && |queued| <= 100
    && (forall i | 0 <= i < |queued| :: queued[i] in before && before[queued[i]].enabled && before[queued[i]].nextRun <= now)
    && (forall i, j | 0 <= i < j < |queued| :: queued[i] != queued[j] && before[queued[i]].nextRun <= before[queued[j]].nextRun)
    && (forall id | id in before && id !in queued && before[id].enabled && before[id].nextRun <= now ::
          |queued| == 100 && forall k | k in queued :: before[k].nextRun <= before[id].nextRun)
    && after.Keys == before.Keys
    && (forall id | id in before && id !in queued :: after[id] == before[id])
    && (forall id | id in before && id in queued ::
          var j := before[id];
          after[id] == Job(j.enabled, j.period, now + if j.period < 30 then 30 else j.period, j.lastRun, j.status))
  }

  lemma {:induction false} MembersSize(ids: seq<JobId>)
    requires forall i, j | 0 <= i < j < |ids| :: ids[i] != ids[j]
    ensures |Members(ids)| == |ids|
  {
    if ids != [] {
      var n := |ids| - 1;
      MembersSize(ids[..n]);
      ExtendMembers(ids[..n], ids[n]);
      assert ids[..n] + [ids[n]] == ids;
      assert forall i | 0 <= i < n :: ids[..n][i] != ids[n];
    }
  }

  lemma TickedSpelledOut(before: Jobs, queued: seq<JobId>, now: int)
    requires Batch(before, Members(queued), now) && EarliestFirst(before, queued)
    ensures Ticked(before, queued, AfterTick(before, Members(queued), now), now)
  {
    MembersSize(queued);
    assert forall id :: id in Members(queued) <==> id in queued;
    forall i | 0 <= i < |queued|
      ensures queued[i] in DueJobs(before, now)
    {
      assert queued[i] in Members(queued);
    }
    forall id | id in before && id !in queued && before[id].enabled && before[id].nextRun <= now
      ensures |queued| == 100 && forall k | k in queued :: before[k].nextRun <= before[id].nextRun
    {
      assert id in DueJobs(before, now) - Members(queued);
      if |DueJobs(before, now)| <= 100 {
        SubsetSize(Members(queued) + {id}, DueJobs(before, now));
      }
    }
    hide Members, Batch, EarliestFirst;
  }

  // ------------------------------------------------------------ disabled jobs

  /** The event enables job `id`: it is created so, or an edit that saves leaves it so. */
  predicate Enables(e: Event, id: JobId) {
    || (e.Create? && e.id == id && e.enabled)
    || (e.Update? && e.id == id && !e.edit.Empty() && (if e.edit.enabled.Some? then e.edit.enabled.value else e.loaded.enabled))
  }

  predicate IsOff(jobs: Jobs, id: JobId) {
    id in jobs ==> !jobs[id].enabled
  }

  /** The execution publishes: the job is there and enabled, and the publisher succeeds. */
  predicate Publishes(jobs: Jobs, e: Event, id: JobId) {
    e.Execute? && e.id == id && id in jobs && jobs[id].enabled && e.outcome == Published
  }

  /** Saving an edit that disables a job turns it off, whatever row it was read from. */
  lemma DisablingTurnsOff(jobs: Jobs, id: JobId, loaded: Job, edit: Edit, now: int)
    requires edit.enabled == Some(false)
    ensures IsOff(Step(jobs, Update(id, loaded, edit, now)), id)
  {
  }

  /** Once a job is off, no tick queues it and no execution of it publishes, until an edit or a
      creation enables it again. */
  lemma {:induction false} OffStaysQuiet(jobs: Jobs, clock: int, es: seq<Event>, id: JobId, i: nat)
    requires IsOff(jobs, id) && Runs(jobs, clock, es) && i < |es|
    requires forall k | 0 <= k < i :: !Enables(es[k], id)
    ensures !Queues(es[i], id) && !Publishes(Before(jobs, es, i), es[i], id)
    decreases |es|
  {
    if i == 0 {
      if es[0].Tick? {
        assert es[0].queued <= DueJobs(jobs, es[0].now);
      }
    } else {
      assert IsOff(Step(jobs, es[0]), id) by {
        if es[0].Tick? {
          assert es[0].queued <= DueJobs(jobs, es[0].now);
        }
      }
      OffStaysQuiet(Step(jobs, es[0]), es[0].now, es[1..], id, i - 1);
    }
  }

  class PeriodicPublisher {
    var jobs: Jobs

    constructor ()
      ensures jobs == map[]
    {
      jobs := map[];
    }

    /** The due rows in order of due time, at most one batch. */
    method SelectDue(now: int) returns (batch: seq<JobId>)
      ensures Batch(jobs, Members(batch), now) && EarliestFirst(jobs, batch)
    {
      batch := [];
      var todo := DueJobs(jobs, now);
      ghost var due := todo;
      assert Members(batch) == {} && EarliestFirst(jobs, batch) && NoneEarlier(jobs, batch, todo);
      hide EarliestFirst, NoneEarlier, Members, DueJobs, Batch;
      while todo != {} && |batch| < MAX_JOBS_PER_TICK
        invariant todo <= due && Members(batch) == due - todo
        invariant |batch| == |Members(batch)| <= MAX_JOBS_PER_TICK
        invariant EarliestFirst(jobs, batch)
        invariant NoneEarlier(jobs, batch, todo)
        decreases todo
      {
        EarliestExists(jobs, todo);
        var p :| Earliest(jobs, todo, p);
        Selected(jobs, batch, todo, p);
        batch := batch + [p];
        todo := todo - {p};
      }
      BatchDone(jobs, batch, todo, now);
    }

    /** `process_periodic_publish_jobs`. */
    method ProcessPeriodicPublishJobs(now: int) returns (queued: seq<JobId>)
      modifies this
      ensures Batch(old(jobs), Members(queued), now) && EarliestFirst(old(jobs), queued)
      ensures jobs == AfterTick(old(jobs), Members(queued), now)
      ensures Ticked(old(jobs), queued, jobs, now)
    {
      var dueJobs := SelectDue(now);
      queued := [];
      for i := 0 to |dueJobs|
        invariant queued == dueJobs[..i]
        invariant jobs == AfterTick(old(jobs), Members(queued), now)
      {
        var id := dueJobs[i];
        ExtendMembers(queued, id);
        assert id !in Members(queued);
        jobs := jobs[id := Requeued(jobs[id], now)];
        queued := queued + [id];
      }
      assert dueJobs[..|dueJobs|] == dueJobs;
      TickedSpelledOut(old(jobs), queued, now);
    }

    /** `execute_periodic_publish_job`; `published` is what the publisher service answered. */
    method ExecutePeriodicPublishJob(id: JobId, now: int, outcome: Outcome) returns (success: bool)
      modifies this
      ensures jobs == Step(old(jobs), Execute(id, now, outcome))
      ensures success <==> id in old(jobs) && old(jobs)[id].enabled && outcome == Published
      ensures jobs.Keys == old(jobs.Keys) && forall k | k in old(jobs) && k != id :: jobs[k] == old(jobs)[k]
      ensures id in old(jobs) ==>
                var j := old(jobs)[id];
                jobs[id] == Job(j.enabled, j.period, j.nextRun, Some(now),
                                if !j.enabled then Skipped else if outcome == Published then Success else Failure)
    {
      if id !in jobs {
        return false;
      }
      if !jobs[id].enabled {
        jobs := jobs[id := jobs[id].(lastRun := Some(now), status := Skipped)];
        return false;
      }
      if outcome == Published {
        jobs := jobs[id := jobs[id].(lastRun := Some(now), status := Success)];
        return true;
      }
      jobs := jobs[id := jobs[id].(lastRun := Some(now), status := Failure)];
      return false;
    }

    /** `create_periodic_job`; false when validation rejects the period. */
    method CreatePeriodicJob(id: JobId, enabled: bool, period: int, now: int) returns (ok: bool)
      requires id !in jobs
      modifies this
      ensures ok <==> Allowed(old(jobs), Create(id, enabled, period, now))
      ensures jobs == if ok then Step(old(jobs), Create(id, enabled, period, now)) else old(jobs)
      ensures if period >= 30 then jobs == old(jobs)[id := Job(enabled, period, now, None, Idle)] else jobs == old(jobs)
    {
      if period < MIN_PERIOD_SECONDS {
        return false;
      }
      jobs := jobs[id := Job(enabled, period, now, None, Idle)];
      return true;
    }

    /** `update_periodic_job`; `found` is the row as the request read it earlier, None if there was
        none. False for 404 and 400. */
    method UpdatePeriodicJob(id: JobId, found: Option<Job>, edit: Edit, now: int) returns (ok: bool)
      modifies this
      ensures ok <==> found.Some? && Allowed(old(jobs), Update(id, found.value, edit, now))
      ensures jobs == if ok then Step(old(jobs), Update(id, found.value, edit, now)) else old(jobs)
      ensures ok <==> found.Some? && (edit == Edit(None, None, false) || (if edit.period.Some? then edit.period.value else found.value.period) >= 30)
      ensures !ok || edit == Edit(None, None, false) ==> jobs == old(jobs)
      ensures ok && edit != Edit(None, None, false) ==>
                && jobs.Keys == old(jobs.Keys) + {id} && (forall k | k in old(jobs) && k != id :: jobs[k] == old(jobs)[k])
                && var read, row := found.value, jobs[id];
                && row.enabled == (if edit.enabled.Some? then edit.enabled.value else read.enabled)
                && row.period == (if edit.period.Some? then edit.period.value else read.period)
                && row.lastRun == read.lastRun && row.status == read.status
                && row.nextRun == if row.enabled && ((edit.enabled.Some? && !read.enabled) || edit.period.Some?) then now else read.nextRun
    {
      if found == None {
        return false;
      }
      if edit.Empty() {
        return true;
      }
      var loaded := found.value;
      var job := loaded;
      var previousEnabled := job.enabled;
      if edit.enabled.Some? {
        job := job.(enabled := edit.enabled.value);
      }
      if edit.period.Some? {
        job := job.(period := edit.period.value);
      }
      if job.period < MIN_PERIOD_SECONDS {
        return false;
      }
      var resetNextRun := false;
      if edit.enabled.Some? {
        resetNextRun := !previousEnabled && job.enabled;
      }
      if edit.period.Some? && job.enabled {
        resetNextRun := true;
      }
      if resetNextRun && job.enabled {
        job := job.(nextRun := now);
      }
      jobs := jobs[id := job];
      return true;
    }
  }

  lemma ExtendMembers(ids: seq<JobId>, id: JobId)
    ensures Members(ids + [id]) == Members(ids) + {id}
  {
    assert (ids + [id])[|ids|] == id;
    forall i | 0 <= i < |ids|
      ensures (ids + [id])[i] in Members(ids + [id])
    {
    }
    forall x | x in Members(ids)
      ensures x in Members(ids + [id])
    {
      var i :| 0 <= i < |ids| && ids[i] == x;
      assert (ids + [id])[i] == x;
    }
  }

  lemma BatchDone(jobs: Jobs, batch: seq<JobId>, todo: set<JobId>, now: int)
    requires todo <= DueJobs(jobs, now) && Members(batch) == DueJobs(jobs, now) - todo
    requires |Members(batch)| <= MAX_JOBS_PER_TICK && (todo == {} || |Members(batch)| == MAX_JOBS_PER_TICK)
    requires NoneEarlier(jobs, batch, todo)
    ensures Batch(jobs, Members(batch), now)
  {
    var due := DueJobs(jobs, now);
    hide Members, DueJobs;
    assert due - Members(batch) == todo;
    assert |due| == |Members(batch)| + |todo| by { assert due == Members(batch) + todo; }
  }
}
