/**
 * The store's job methods (store.ts): rows, cached counters and the scheduling latch, each SQL
 * statement one step. Every method does to the rows what JobTable.Apply says, deciding by the
 * cached counters, and leaves each counter equal to its recount.
 */
module JobQueue {
  import opened Wrappers
  import opened JobTable

  const CACHED: set<JobType> := {Expand, Backfill, Audit, ProcessTx}

  /** The row changes leave type and payload alone, so only the status matters to the counts. */
  lemma Restatus(jobs: Jobs, id: nat, j: Job)
    requires id in jobs && j.kind == jobs[id].kind && j.payload == jobs[id].payload
    ensures Tally(jobs[id := j], PendingJobs)
            == Tally(jobs, PendingJobs) + Weight(PendingJobs, j) - Weight(PendingJobs, jobs[id])
    ensures forall k :: Tally(jobs[id := j], ActiveOf(k))
                        == Tally(jobs, ActiveOf(k)) + Weight(ActiveOf(k), j) - Weight(ActiveOf(k), jobs[id])
  {
    hide Tally;
    TallyPut(jobs, id, j, PendingJobs);
    forall k ensures Tally(jobs[id := j], ActiveOf(k))
                     == Tally(jobs, ActiveOf(k)) + Weight(ActiveOf(k), j) - Weight(ActiveOf(k), jobs[id]) {
      TallyPut(jobs, id, j, ActiveOf(k));
    }
  }

  lemma AtLeast(jobs: Jobs, id: nat)
    requires id in jobs
    ensures Tally(jobs, PendingJobs) >= Weight(PendingJobs, jobs[id])
    ensures forall k :: Tally(jobs, ActiveOf(k)) >= Weight(ActiveOf(k), jobs[id])
  {
    hide Tally;
    TallyNonnegative(jobs, PendingJobs);
    forall k ensures Tally(jobs, ActiveOf(k)) >= Weight(ActiveOf(k), jobs[id]) {
      TallyNonnegative(jobs, ActiveOf(k));
    }
  }

  /** What deleting the given active rows takes off each count. */
  method CountsOfRows(jobs: Jobs, rows: set<nat>) returns (pendingDelta: int, activeByType: map<JobType, int>)
    requires rows <= jobs.Keys && forall id :: id in rows ==> Active(jobs[id])
    ensures Tally(jobs - rows, PendingJobs) == Tally(jobs, PendingJobs) + pendingDelta
    ensures forall k :: Tally(jobs - rows, ActiveOf(k))
                        == Tally(jobs, ActiveOf(k)) + if k in activeByType then activeByType[k] else 0
  {
    hide Tally;
    pendingDelta, activeByType := 0, map[];
    var rest := rows;
    assert jobs - (rows - rest) == jobs;
    while rest != {}
      invariant rest <= rows
      invariant Tally(jobs - (rows - rest), PendingJobs) == Tally(jobs, PendingJobs) + pendingDelta
      invariant forall k :: Tally(jobs - (rows - rest), ActiveOf(k))
                            == Tally(jobs, ActiveOf(k)) + if k in activeByType then activeByType[k] else 0
    {
      var id :| id in rest;
      var left := jobs - (rows - rest);
      assert jobs - (rows - (rest - {id})) == left - {id};
      TallyRemove(left, id, PendingJobs);
      forall k ensures Tally(left, ActiveOf(k)) == Tally(left - {id}, ActiveOf(k)) + Weight(ActiveOf(k), jobs[id]) {
        TallyRemove(left, id, ActiveOf(k));
      }
      var kind := jobs[id].kind;
      if jobs[id].status.Pending? {
        pendingDelta := pendingDelta - 1;
      }
      activeByType := activeByType[kind := (if kind in activeByType then activeByType[kind] else 0) - 1];
      rest := rest - {id};
    }
    assert jobs - (rows - rest) == jobs - rows;
  }

  class JobStore {
    const limits: Limits
    var jobs: Jobs
    var nextId: nat
    var paused: bool
    var pendingJobCount: int
    var activeCount: map<JobType, int>

    ghost function View(): Table
      reads this
    {
      Table(jobs, nextId, paused)
    }

    /** Each cached counter equals its recount. */
    ghost predicate Counted()
      reads this
    {
      && FreshIds(View())
      && pendingJobCount == Tally(jobs, PendingJobs)
      && activeCount.Keys == CACHED
      && forall k :: k in CACHED ==> activeCount[k] == Tally(jobs, ActiveOf(k))
    }

    constructor (limits: Limits)
      ensures Counted() && this.limits == limits && View() == Table(map[], 0, false)
    {
      this.limits := limits;
      jobs, nextId, paused := map[], 0, false;
      pendingJobCount := 0;
      activeCount := map[Expand := 0, Backfill := 0, Audit := 0, ProcessTx := 0];
      new;
      TallyZero(jobs, PendingJobs);
      forall k ensures Tally(jobs, ActiveOf(k)) == 0 {
        TallyZero(jobs, ActiveOf(k));
      }
    }

    method AdjustPendingJobCount(delta: int)
      modifies this`pendingJobCount
      ensures pendingJobCount == if delta == 0 then old(pendingJobCount) else Max(0, old(pendingJobCount) + delta)
    {
      if delta != 0 {
        pendingJobCount := Max(0, pendingJobCount + delta);
      }
    }

    method AdjustActiveJobCount(kind: JobType, delta: int)
      requires activeCount.Keys == CACHED
      modifies this`activeCount
      ensures activeCount.Keys == CACHED
      ensures forall k :: k in CACHED ==>
                activeCount[k]
                == if k == kind && delta != 0 then Max(0, old(activeCount[k]) + delta) else old(activeCount[k])
    {
      if delta != 0 && Cached(kind) {
        activeCount := activeCount[kind := Max(0, activeCount[kind] + delta)];
      }
    }

    /** SELECT count(*). */
    method CountRows(c: Count) returns (n: int)
      ensures n == Tally(jobs, c)
    {
      hide Tally;
      var rest := jobs.Keys;
      n := 0;
      assert jobs - rest == map[];
      TallyZero(jobs - rest, c);
      while rest != {}
        invariant rest <= jobs.Keys
        invariant n == Tally(jobs - rest, c)
      {
        var id :| id in rest;
        assert jobs - (rest - {id}) == (jobs - rest)[id := jobs[id]];
        TallyPut(jobs - rest, id, jobs[id], c);
        n := n + if Counts(c, jobs[id]) then 1 else 0;
        rest := rest - {id};
      }
      assert jobs - rest == jobs;
    }

    /** SELECT ... LIMIT cap: expand jobs are counted no further than needed; a negative LIMIT is none. */
    method CountActiveJobsForAddress(kind: JobType, address: string) returns (n: int)
      ensures n == if kind.Expand? && 0 <= limits.expandPerAddress + 1 < Tally(jobs, ActiveFor(kind, address))
                   then limits.expandPerAddress + 1 else Tally(jobs, ActiveFor(kind, address))
      ensures kind.Expand? ==>
              (n >= limits.expandPerAddress <==> Tally(jobs, ActiveFor(kind, address)) >= limits.expandPerAddress)
    {
      hide Tally;
      TallyNonnegative(jobs, ActiveFor(kind, address));
      n := CountRows(ActiveFor(kind, address));
      if kind.Expand? {
        var cap := limits.expandPerAddress + 1;
        n := if 0 <= cap < n then cap else n;
      }
    }

    method ShouldAllowEnqueue(kind: JobType, p: Payload, bypass: bool) returns (ok: bool)
      requires Counted()
      modifies this`paused
      ensures Counted()
      ensures ok <==> Admits(limits, old(View()), kind, p, bypass)
      ensures paused <==> PausedAfter(limits, old(View()), kind, p, bypass)
    {
      hide Tally;
      if bypass { return true; }
      if paused {
        if kind.Expand? { return false; }
        if kind.Backfill? && p.continuation { return true; }
        return false;
      }
      if kind.Expand? {
        if activeCount[Expand] >= limits.expandGlobal { return false; }
        if p.address.Some? && p.address.value != "" {
          var perAddr := CountActiveJobsForAddress(Expand, p.address.value);
          if perAddr >= limits.expandPerAddress { return false; }
        }
      }
      if kind.Backfill? && !p.continuation {
        if activeCount[Backfill] >= limits.backfillGlobal { return false; }
      }
      if kind.Audit? {
        if activeCount[Audit] >= limits.auditGlobal { return false; }
      }
      if pendingJobCount >= limits.maxQueueDepth {
        paused := true;
        return p.continuation;
      }
      return true;
    }

    method InsertRow(j: Job) returns (id: nat)
      requires Counted() && j.status.Pending?
      modifies this`jobs, this`nextId, this`pendingJobCount, this`activeCount
      ensures Counted() && View() == Insert(old(View()), j) && id == old(nextId)
    {
      hide Tally;
      id := nextId;
      TallyNonnegative(jobs, PendingJobs);
      TallyPut(jobs, id, j, PendingJobs);
      forall k ensures Tally(jobs, ActiveOf(k)) >= 0
      ensures Tally(jobs[id := j], ActiveOf(k)) == Tally(jobs, ActiveOf(k)) + Weight(ActiveOf(k), j) {
        TallyNonnegative(jobs, ActiveOf(k));
        TallyPut(jobs, id, j, ActiveOf(k));
      }
      jobs := jobs[id := j];
      nextId := nextId + 1;
      AdjustPendingJobCount(1);
      AdjustActiveJobCount(j.kind, 1);
    }

    method EnqueueJob(kind: JobType, p: Payload, priority: int, runAfter: int, now: int, bypass: bool)
      returns (id: Option<nat>)
      requires Counted()
      modifies this
      ensures Counted()
      ensures View() == Apply(limits, old(View()), Enqueue(kind, p, priority, runAfter, now, bypass))
      ensures id == if Inserts(limits, old(View()), Enqueue(kind, p, priority, runAfter, now, bypass))
                    then Some(old(nextId)) else None
    {
      hide Tally, Counted, Admits, PausedAfter;
      var ok := ShouldAllowEnqueue(kind, p, bypass);
      if !ok { return None; }
      var n := InsertRow(NewJob(kind, p, priority, runAfter, now));
      id := Some(n);
    }

    /** SELECT 1 ... WHERE type IN (types) AND active [AND address]. */
    method ExistsActive(types: set<JobType>, address: string) returns (found: bool)
      ensures found <==> exists id :: id in jobs && Matches(jobs[id], types, address)
    {
      var rest := jobs.Keys;
      while rest != {}
        invariant rest <= jobs.Keys
        invariant forall id :: id in jobs && id !in rest ==> !Matches(jobs[id], types, address)
      {
        var id :| id in rest;
        if Matches(jobs[id], types, address) { return true; }
        rest := rest - {id};
      }
      return false;
    }

    method EnqueueJobIfAbsent(kind: JobType, p: Payload, priority: int, runAfter: int, now: int, bypass: bool,
                              types: Option<set<JobType>>, address: Option<string>) returns (id: Option<nat>)
      requires Counted()
      modifies this
      ensures Counted()
      ensures View() == Apply(limits, old(View()),
                              EnqueueIfAbsent(kind, p, priority, runAfter, now, bypass, types, address))
      ensures id == if Inserts(limits, old(View()),
                               EnqueueIfAbsent(kind, p, priority, runAfter, now, bypass, types, address))
                    then Some(old(nextId)) else None
    {
      hide Tally, Counted, Matches, DedupeTypes, DedupeAddress, Admits, PausedAfter, OverLimit, DepthReached;
      var ok := ShouldAllowEnqueue(kind, p, bypass);
      if !ok { return None; }
      var found := ExistsActive(DedupeTypes(types, kind), DedupeAddress(address, p));
      if found { return None; }
      var n := InsertRow(NewJob(kind, p, priority, runAfter, now));
      id := Some(n);
    }

    method MarkJobRunning(id: nat, ts: int) returns (job: Option<Job>)
      requires Counted()
      modifies this
      ensures Counted()
      ensures View() == Apply(limits, old(View()), Claim(id, ts))
      ensures job == if id in old(jobs) && old(jobs)[id].status.Pending? then Some(Claimed(old(jobs)[id], ts)) else None
    {
      hide Tally;
      if id !in jobs || !jobs[id].status.Pending? { return None; }
      AtLeast(jobs, id);
      Restatus(jobs, id, Claimed(jobs[id], ts));
      jobs := jobs[id := Claimed(jobs[id], ts)];
      AdjustPendingJobCount(-1);
      job := Some(jobs[id]);
    }

    method CompleteJob(id: nat, ts: int)
      requires Counted()
      modifies this
      ensures Counted()
      ensures View() == Apply(limits, old(View()), Complete(id, ts))
    {
      hide Tally;
      if id !in jobs { return; }
      var job := jobs[id];
      AtLeast(jobs, id);
      Restatus(jobs, id, Completed(job, ts));
      jobs := jobs[id := Completed(job, ts)];
      if job.status.Pending? {
        AdjustPendingJobCount(-1);
      }
      if job.status.Pending? || job.status.Running? {
        AdjustActiveJobCount(job.kind, -1);
      }
    }

    /** Exact on active jobs; a finished job is revived without being counted. */
    method FailJob(id: nat, until: int)
      requires Counted()
      modifies this
      ensures View() == Apply(limits, old(View()), Fail(id, until))
      ensures Counted() <==> (id in old(jobs) ==> Active(old(jobs)[id]))
    {
      hide Tally;
      if id !in jobs { return; }
      var job := jobs[id];
      TallyNonnegative(jobs, PendingJobs);
      Restatus(jobs, id, Failed(job, until));
      jobs := jobs[id := Failed(job, until)];
      if job.status.Running? {
        AdjustPendingJobCount(1);
      }
    }

    method DeferJob(id: nat, until: int)
      requires Counted()
      modifies this
      ensures View() == Apply(limits, old(View()), Defer(id, until))
      ensures Counted() <==> (id in old(jobs) ==> Active(old(jobs)[id]))
    {
      hide Tally;
      if id !in jobs { return; }
      var job := jobs[id];
      TallyNonnegative(jobs, PendingJobs);
      Restatus(jobs, id, Deferred(job, until));
      jobs := jobs[id := Deferred(job, until)];
      if job.status.Running? {
        AdjustPendingJobCount(1);
      }
    }

    method ReclaimRow(rule: ReclaimRule, id: nat)
      requires Counted() && id in jobs && jobs[id].status.Running?
      modifies this
      ensures Counted() && View() == Put(old(View()), id, Reclaimed(rule, old(jobs)[id]))
    {
      hide Tally;
      var job := jobs[id];
      if rule.deferAfter > 0 && job.reclaimCount + 1 >= rule.deferAfter && job.progress == Some(job.payload.progress) {
        DeferJob(id, rule.now + rule.deferSec * 1000);
        Restatus(jobs, id, jobs[id].(reclaimCount := 0, progress := None));
        jobs := jobs[id := jobs[id].(reclaimCount := 0, progress := None)];
      } else {
        TallyNonnegative(jobs, PendingJobs);
        var back := job.(status := Pending, startedAt := None, reclaimCount := job.reclaimCount + 1,
                         progress := Some(job.payload.progress));
        Restatus(jobs, id, back);
        jobs := jobs[id := back];
        AdjustPendingJobCount(1);
      }
    }

    /** Each stale running row goes back to pending, or is put off when it made no progress. */
    method ResetRunningJobs(rule: ReclaimRule)
      requires Counted()
      modifies this
      ensures Counted()
      ensures View() == Apply(limits, old(View()), Reclaim(rule))
    {
      hide Tally, Counted, Reclaimed, ReclaimedRows, StaleIds, Apply;
      var stale := StaleIds(rule, jobs);
      ghost var was := View();
      ReclaimedNone(rule, jobs);
      assert StaleIds(rule, jobs) - stale == {};
      while stale != {}
        invariant stale <= StaleIds(rule, was.jobs) && Counted()
        invariant View() == was.(jobs := ReclaimedRows(rule, was.jobs, StaleIds(rule, was.jobs) - stale))
        decreases |stale|
      {
        var id :| id in stale;
        ReclaimedOneMore(rule, was.jobs, stale, id);
        ReclaimRow(rule, id);
        stale := stale - {id};
      }
      ReclaimedAll(limits, rule, was);
      assert StaleIds(rule, was.jobs) - {} == StaleIds(rule, was.jobs);
    }

    /** Each type's counter moves by its delta. */
    method AdjustActiveJobCounts(activeByType: map<JobType, int>)
      requires activeCount.Keys == CACHED
      modifies this`activeCount
      ensures activeCount.Keys == CACHED
      ensures forall k :: k in CACHED ==>
                activeCount[k] == if k in activeByType && activeByType[k] != 0
                                  then Max(0, old(activeCount)[k] + activeByType[k]) else old(activeCount)[k]
    {
      var types := activeByType.Keys;
      while types != {}
        invariant types <= activeByType.Keys && activeCount.Keys == CACHED
        invariant forall k :: k in CACHED ==>
                    activeCount[k] == if k in activeByType && k !in types && activeByType[k] != 0
                                      then Max(0, old(activeCount)[k] + activeByType[k]) else old(activeCount)[k]
      {
        var kind :| kind in types;
        AdjustActiveJobCount(kind, activeByType[kind]);
        types := types - {kind};
      }
    }

    /** The rows are deleted at once; the counters follow from what was read before. */
    method DeleteActiveJobsForAddress(address: string)
      requires Counted()
      modifies this
      ensures Counted()
      ensures View() == Apply(limits, old(View()), DeleteFor(address))
    {
      hide Tally;
      var rows := set id | id in jobs && ActiveAt(jobs[id], address);
      var pendingDelta, activeByType := CountsOfRows(jobs, rows);
      var before := jobs;
      jobs := map id | id in before && !ActiveAt(before[id], address) :: before[id];
      assert jobs == before - rows;
      TallyNonnegative(jobs, PendingJobs);
      AdjustPendingJobCount(pendingDelta);
      AdjustActiveJobCounts(activeByType);
      forall k ensures Tally(jobs, ActiveOf(k)) >= 0 {
        TallyNonnegative(jobs, ActiveOf(k));
      }
    }

    method DeleteActiveJobs()
      requires Counted()
      modifies this
      ensures Counted()
      ensures View() == Apply(limits, old(View()), DeleteActive)
    {
      hide Tally;
      jobs := map id | id in jobs && !Active(jobs[id]) :: jobs[id];
      pendingJobCount := 0;
      activeCount := map[Expand := 0, Backfill := 0, Audit := 0, ProcessTx := 0];
      TallyZero(jobs, PendingJobs);
      forall k ensures Tally(jobs, ActiveOf(k)) == 0 {
        TallyZero(jobs, ActiveOf(k));
      }
    }

    /** Any batch of finished rows may be pruned; no counter is touched. */
    method PruneDoneJobs(ids: set<nat>)
      requires Counted()
      modifies this
      ensures Counted()
      ensures View() == Apply(limits, old(View()), Prune(ids))
    {
      hide Tally;
      var before := jobs;
      jobs := map id | id in before && !(id in ids && before[id].status.Done?) :: before[id];
      forall c: Count ensures Tally(jobs, c) == Tally(before, c) {
        PrunedTally(before, jobs, c);
      }
    }

    method SetQueueSchedulingPaused(value: bool)
      requires Counted()
      modifies this
      ensures Counted()
      ensures View() == Apply(limits, old(View()), SetPaused(value))
    {
      hide Tally;
      paused := value;
    }

    method MaybeClearQueueSchedulingPause()
      requires Counted()
      modifies this
      ensures Counted()
      ensures View() == Apply(limits, old(View()), MaybeClear)
    {
      hide Tally;
      if pendingJobCount <= limits.resumeDepth {
        SetQueueSchedulingPaused(false);
      }
    }

    /** reconcilePendingJobCount and reconcileActiveJobCounts: the recount repairs any counters. */
    method Reconcile()
      requires FreshIds(View())
      modifies this
      ensures Counted() && View() == old(View())
    {
      hide Tally;
      pendingJobCount := CountRows(PendingJobs);
      var a := CountRows(ActiveOf(Expand));
      var b := CountRows(ActiveOf(Backfill));
      var c := CountRows(ActiveOf(Audit));
      var d := CountRows(ActiveOf(ProcessTx));
      activeCount := map[Expand := a, Backfill := b, Audit := c, ProcessTx := d];
    }
  }

  /** Finished rows count nowhere. */
  lemma {:induction false} PrunedTally(before: Jobs, after: Jobs, c: Count)
    requires forall id :: id in after ==> id in before && after[id] == before[id]
    requires forall id :: id in before && id !in after ==> before[id].status.Done?
    ensures Tally(after, c) == Tally(before, c)
    decreases |before|
  {
    hide Tally;
    if id :| id in before && id !in after {
      TallyRemove(before, id, c);
      assert before == (before - {id})[id := before[id]];
      PrunedTally(before - {id}, after, c);
    } else {
      assert before == after;
    }
  }
}
