/**
 * What the operations of the job table come to, in terms of statuses, limits and counts of rows:
 * who joins, what sets the latch, and which row changes how.
 */
module JobLaws {
  import opened Wrappers
  import opened TableSums
  import opened JobTable
  import opened JobRuns
  import opened JobRaces

  // ---- counts -----------------------------------------------------------------------------

  predicate Unfinished(j: Job) {
    j.status == Pending || j.status == Running
  }

  function CountedIds(jobs: Jobs, c: Count): set<nat> {
    set id | id in jobs && Counts(c, jobs[id])
  }

  lemma {:induction false} TallyIsSize(jobs: Jobs, c: Count)
    ensures Tally(jobs, c) == |CountedIds(jobs, c)|
    decreases |jobs|
  {
    hide Tally, Counts;
    if id :| id in jobs {
      TallyRemove(jobs, id, c);
      var rest := jobs - {id};
      assert jobs == rest[id := jobs[id]];
      TallyIsSize(rest, c);
      if Counts(c, jobs[id]) {
        assert CountedIds(jobs, c) == CountedIds(rest, c) + {id};
      } else {
        assert CountedIds(jobs, c) == CountedIds(rest, c);
      }
    } else {
      TallyZero(jobs, c);
      assert CountedIds(jobs, c) == {};
    }
  }

  /** Each recount is the number of rows it names. */
  lemma TallyCounts(jobs: Jobs, kind: JobType, address: string)
    ensures Tally(jobs, PendingJobs) == |set id | id in jobs && jobs[id].status == Pending|
    ensures Tally(jobs, ActiveOf(kind)) == |set id | id in jobs && Unfinished(jobs[id]) && jobs[id].kind == kind|
    ensures Tally(jobs, ActiveFor(kind, address))
            == |set id | id in jobs && Unfinished(jobs[id]) && jobs[id].kind == kind
                         && jobs[id].payload.address == Some(address)|
  {
    hide Tally;
    TallyIsSize(jobs, PendingJobs);
    TallyIsSize(jobs, ActiveOf(kind));
    TallyIsSize(jobs, ActiveFor(kind, address));
    assert CountedIds(jobs, PendingJobs) == set id | id in jobs && jobs[id].status == Pending;
    assert CountedIds(jobs, ActiveOf(kind)) == set id | id in jobs && Unfinished(jobs[id]) && jobs[id].kind == kind;
    assert CountedIds(jobs, ActiveFor(kind, address))
        == set id | id in jobs && Unfinished(jobs[id]) && jobs[id].kind == kind
                    && jobs[id].payload.address == Some(address);
  }

  // ---- who joins --------------------------------------------------------------------------

  /** No count that the job would add to has reached its cap. */
  ghost predicate BelowCaps(limits: Limits, t: Table, op: Op)
    requires Enqueues(op)
  {
    && (op.kind == Expand ==> Tally(t.jobs, ActiveOf(Expand)) < limits.expandGlobal)
    && (forall a :: op.kind == Expand && a != "" && op.payload.address == Some(a) ==>
          Tally(t.jobs, ActiveFor(Expand, a)) < limits.expandPerAddress)
    && (op.kind == Backfill && !op.payload.continuation ==>
          Tally(t.jobs, ActiveOf(Backfill)) < limits.backfillGlobal)
    && (op.kind == Audit ==> Tally(t.jobs, ActiveOf(Audit)) < limits.auditGlobal)
  }

  /** With the latch on, backfill continuations alone; else below the caps, at full depth continuations alone. */
  ghost predicate Room(limits: Limits, t: Table, op: Op)
    requires Enqueues(op)
  {
    || op.bypass
    || (t.paused && op.kind == Backfill && op.payload.continuation)
    || (!t.paused && BelowCaps(limits, t, op)
        && (Tally(t.jobs, PendingJobs) < limits.maxQueueDepth || op.payload.continuation))
  }

  /** An unfinished job of one of the types, at the address if one is given here or in the payload. */
  predicate Duplicate(j: Job, op: Op)
    requires op.EnqueueIfAbsent?
  {
    && Unfinished(j)
    && (if op.types.Some? then j.kind in op.types.value else j.kind == op.kind)
    && match op.dedupeAddress
       case Some(a) => a == "" || j.payload.address == Some(a)
       case None => op.payload.address in {None, Some(""), j.payload.address}
  }

  lemma DuplicateMatches(j: Job, op: Op)
    requires op.EnqueueIfAbsent?
    ensures Duplicate(j, op)
            <==> Matches(j, DedupeTypes(op.types, op.kind), DedupeAddress(op.dedupeAddress, op.payload))
  {
  }

  /** An enqueue adds its row, pending and fresh, if and only if there is room and no duplicate. */
  lemma JoinsExact(limits: Limits, t: Table, op: Op)
    requires FreshIds(t) && Enqueues(op)
    ensures var after := Apply(limits, t, op);
            var joined := Room(limits, t, op)
                          && (op.EnqueueIfAbsent? ==> forall id :: id in t.jobs ==> !Duplicate(t.jobs[id], op));
            && (t.nextId in after.jobs <==> joined)
            && after.nextId == (if joined then t.nextId + 1 else t.nextId)
            && after.jobs == if joined
                             then t.jobs[t.nextId := Job(op.kind, op.payload, Pending, op.priority, op.runAfter, op.now,
                                                         None, None, 0, 0, None)]
                             else t.jobs
  {
    hide Tally, Duplicate, Matches;
    RoomExact(limits, t, op);
    hide Admits, Room;
    if op.EnqueueIfAbsent? {
      forall id | id in t.jobs { DuplicateMatches(t.jobs[id], op); }
    }
    assert Inserts(limits, t, op)
      <==> Room(limits, t, op) && (op.EnqueueIfAbsent? ==> forall id :: id in t.jobs ==> !Duplicate(t.jobs[id], op));
  }

  lemma RoomExact(limits: Limits, t: Table, op: Op)
    requires Enqueues(op)
    ensures Room(limits, t, op) <==> Admits(limits, t, op.kind, op.payload, op.bypass)
  {
    hide Tally;
  }

  /** Operation n adds a row. */
  ghost predicate AddsRow(limits: Limits, t: Table, ops: seq<Op>, n: nat)
    requires n < |ops|
  {
    StateAt(limits, t, ops, n).nextId in StateAt(limits, t, ops, n + 1).jobs
  }

  /** Over every run: a backfill that is no continuation joins only while active backfills are below their cap. */
  lemma BackfillJoins(limits: Limits, t: Table, ops: seq<Op>, n: nat)
    requires FreshIds(t) && n < |ops| && Enqueues(ops[n]) && ops[n].kind == Backfill && !ops[n].payload.continuation
    requires !ops[n].bypass && AddsRow(limits, t, ops, n)
    ensures Tally(StateAt(limits, t, ops, n).jobs, ActiveOf(Backfill)) < limits.backfillGlobal
    ensures !StateAt(limits, t, ops, n).paused
  {
    hide Apply, Tally;
    RunKeepsFreshIds(limits, t, ops, n);
    JoinsExact(limits, StateAt(limits, t, ops, n), ops[n]);
  }

  /** Of the operations below n, how many added a backfill continuation. */
  ghost function ContinuationsAdded(limits: Limits, t: Table, ops: seq<Op>, n: nat): nat
    requires n <= |ops|
  {
    if n == 0 then 0
    else
      ContinuationsAdded(limits, t, ops, n - 1)
      + if AddsRow(limits, t, ops, n - 1) && Enqueues(ops[n - 1])
           && ops[n - 1].kind == Backfill && ops[n - 1].payload.continuation then 1 else 0
  }

  /** Active backfills exceed their cap by no more than the continuations that joined. */
  lemma {:induction false} BackfillsBounded(limits: Limits, t: Table, ops: seq<Op>, n: nat)
    requires FreshIds(t) && PlainRun(limits, t, ops) && n <= |ops|
    requires Tally(t.jobs, ActiveOf(Backfill)) <= limits.backfillGlobal
    ensures Tally(StateAt(limits, t, ops, n).jobs, ActiveOf(Backfill))
            <= limits.backfillGlobal + ContinuationsAdded(limits, t, ops, n)
  {
    hide Apply, Tally, AddsRow, ValidOp;
    if n > 0 {
      BackfillsBounded(limits, t, ops, n - 1);
      BackfillStep(limits, t, ops, n - 1);
    }
  }

  lemma BackfillStep(limits: Limits, t: Table, ops: seq<Op>, n: nat)
    requires FreshIds(t) && PlainRun(limits, t, ops) && n < |ops|
    ensures var before, after := Tally(StateAt(limits, t, ops, n).jobs, ActiveOf(Backfill)),
                                 Tally(StateAt(limits, t, ops, n + 1).jobs, ActiveOf(Backfill));
            || after <= before
            || (after <= before + 1 && AddsRow(limits, t, ops, n) && Enqueues(ops[n]) && ops[n].kind == Backfill
                && (ops[n].payload.continuation || before < limits.backfillGlobal))
  {
    hide Apply, Tally;
    var s, op := StateAt(limits, t, ops, n), ops[n];
    RunKeepsFreshIds(limits, t, ops, n);
    ActiveGrowsByInsertion(limits, s, op, ActiveOf(Backfill));
    if Enqueues(op) {
      JoinsExact(limits, s, op);
      InsertsJoins(limits, s, op);
    }
  }

  lemma InsertsJoins(limits: Limits, t: Table, op: Op)
    requires Enqueues(op)
    ensures Inserts(limits, t, op) ==> t.nextId in Apply(limits, t, op).jobs
  {
    hide Tally;
  }

  // ---- the latch --------------------------------------------------------------------------

  /** A check sets it at full depth, below the caps; it comes off by hand, or at the resume depth. */
  lemma LatchExact(limits: Limits, t: Table, op: Op)
    ensures Apply(limits, t, op).paused <==>
            if Enqueues(op) then
              t.paused || (!op.bypass && BelowCaps(limits, t, op) && Tally(t.jobs, PendingJobs) >= limits.maxQueueDepth)
            else if op.SetPaused? then op.paused
            else t.paused && (op.MaybeClear? ==> Tally(t.jobs, PendingJobs) > limits.resumeDepth)
  {
    hide Tally;
  }

  // ---- rows -------------------------------------------------------------------------------

  /** What no operation changes once a row is there. */
  predicate SameJob(a: Job, b: Job) {
    a.kind == b.kind && a.payload == b.payload && a.priority == b.priority && a.createdAt == b.createdAt
  }

  /** No other row is touched. */
  predicate OthersKept(before: Jobs, after: Jobs, id: nat) {
    after.Keys == before.Keys && forall i :: i in before && i != id ==> after[i] == before[i]
  }

  /** A claim runs a pending job from the given time, and is lost on any other. */
  lemma ClaimEffect(limits: Limits, t: Table, id: nat, ts: int)
    ensures var jobs := Apply(limits, t, Claim(id, ts)).jobs;
            && OthersKept(t.jobs, jobs, id)
            && (id in t.jobs ==>
                  var was, now := t.jobs[id], jobs[id];
                  if was.status != Pending then now == was
                  else SameJob(was, now) && now.status == Running && now.startedAt == Some(ts)
                       && now.completedAt == None && now.runAfter == was.runAfter && now.attempts == was.attempts
                       && now.reclaimCount == was.reclaimCount && now.progress == was.progress)
  {
  }

  /** A finished job keeps its times of start and its attempts, and forgets its reclaims. */
  lemma CompleteEffect(limits: Limits, t: Table, id: nat, ts: int)
    ensures var jobs := Apply(limits, t, Complete(id, ts)).jobs;
            && OthersKept(t.jobs, jobs, id)
            && (id in t.jobs ==>
                  var was, now := t.jobs[id], jobs[id];
                  && SameJob(was, now) && now.status == Done && now.completedAt == Some(ts)
                  && now.startedAt == was.startedAt && now.runAfter == was.runAfter && now.attempts == was.attempts
                  && now.reclaimCount == 0 && now.progress == None)
  {
  }

  /** A failed job counts an attempt and waits; a deferred one starts over. */
  lemma PutBackEffect(limits: Limits, t: Table, id: nat, until: int, failed: bool)
    ensures var jobs := Apply(limits, t, if failed then Fail(id, until) else Defer(id, until)).jobs;
            && OthersKept(t.jobs, jobs, id)
            && (id in t.jobs ==>
                  var was, now := t.jobs[id], jobs[id];
                  && SameJob(was, now) && now.status == Pending && now.startedAt == None
                  && now.completedAt == was.completedAt && now.runAfter == until
                  && now.attempts == (if failed then was.attempts + 1 else 0)
                  && now.reclaimCount == was.reclaimCount && now.progress == was.progress)
  {
  }

  /** A running job whose start is unknown or long enough ago; with no time limit, every running job. */
  predicate Abandoned(rule: ReclaimRule, j: Job) {
    j.status == Running
    && (rule.staleMs <= 0 || j.startedAt == None || rule.now - j.startedAt.value >= rule.staleMs)
  }

  /** The reclaim that reaches the limit with the progress the last one noted. */
  predicate Stuck(rule: ReclaimRule, j: Job) {
    0 < rule.deferAfter <= j.reclaimCount + 1 && j.progress == Some(j.payload.progress)
  }

  /**
   * A reclaim puts back exactly the abandoned jobs: a stuck one later, to start over, any other at
   * once, with the reclaim and its progress noted.
   */
  lemma ReclaimEffect(limits: Limits, t: Table, rule: ReclaimRule, id: nat)
    ensures var jobs := Apply(limits, t, Reclaim(rule)).jobs;
            && jobs.Keys == t.jobs.Keys
            && (id in t.jobs ==>
                  var was, now := t.jobs[id], jobs[id];
                  if !Abandoned(rule, was) then now == was
                  else
                    && SameJob(was, now) && now.status == Pending && now.startedAt == None
                    && now.completedAt == was.completedAt
                    && if Stuck(rule, was)
                       then now.runAfter == rule.now + 1000 * rule.deferSec && now.attempts == 0
                            && now.reclaimCount == 0 && now.progress == None
                       else now.runAfter == was.runAfter && now.attempts == was.attempts
                            && now.reclaimCount == was.reclaimCount + 1 && now.progress == Some(was.payload.progress))
  {
  }

  /** Deletions take whole rows: the unfinished ones of an address, all unfinished ones, or named finished ones. */
  lemma DeleteEffect(limits: Limits, t: Table, op: Op, id: nat)
    requires op.DeleteFor? || op.DeleteActive? || op.Prune?
    ensures var jobs := Apply(limits, t, op).jobs;
            && (id in jobs <==>
                  && id in t.jobs
                  && !(op.DeleteFor? && Unfinished(t.jobs[id]) && t.jobs[id].payload.address == Some(op.address))
                  && !(op.DeleteActive? && Unfinished(t.jobs[id]))
                  && !(op.Prune? && id in op.ids && t.jobs[id].status == Done))
            && (id in jobs ==> jobs[id] == t.jobs[id])
  {
  }

  /** Whether a row has a start or an end follows from its status. */
  predicate Shaped(j: Job) {
    && (j.status == Pending ==> j.startedAt == None) && (j.status == Running ==> j.startedAt != None)
    && (j.status == Done <==> j.completedAt != None)
  }

  predicate AllShaped(jobs: Jobs) {
    forall id :: id in jobs ==> Shaped(jobs[id])
  }

  lemma ShapedStep(limits: Limits, t: Table, op: Op)
    requires AllShaped(t.jobs) && ValidOp(t, op)
    ensures AllShaped(Apply(limits, t, op).jobs)
  {
    hide Inserts, Tally;
  }

  /** Over every run that revives no finished job, status, start and end of every row agree. */
  lemma {:induction false} ShapesHold(limits: Limits, t: Table, ops: seq<Op>, n: nat)
    requires AllShaped(t.jobs) && n <= |ops|
    requires forall i :: 0 <= i < |ops| ==> ValidOp(StateAt(limits, t, ops, i), ops[i])
    ensures AllShaped(StateAt(limits, t, ops, n).jobs)
  {
    hide Apply, AllShaped;
    if n > 0 {
      ShapesHold(limits, t, ops, n - 1);
      ShapedStep(limits, StateAt(limits, t, ops, n - 1), ops[n - 1]);
    }
  }
}
