/**
 * The job table of the store (store.ts) as plain rows, with every count a recount: what each
 * operation means. The class in JobQueue keeps cached counters beside the rows and refines this.
 */
module JobTable {
  import opened Wrappers
  import opened TableSums

  datatype JobType = Expand | Backfill | Audit | ProcessTx | Other(name: string)

  /** The types with a cached active counter (cachedActiveJobCountField). */
  predicate Cached(t: JobType) {
    !t.Other?
  }

  datatype Status = Pending | Running | Done

  /** A payload as far as the queue looks at it. */
  datatype Payload = Payload(address: Option<string>, continuation: bool, progress: int)

  datatype Job = Job(kind: JobType, payload: Payload, status: Status, priority: int, runAfter: int, createdAt: int,
                     startedAt: Option<int>, completedAt: Option<int>, attempts: nat, reclaimCount: nat,
                     progress: Option<int>)

  type Jobs = map<nat, Job>

  predicate Active(j: Job) {
    j.status.Pending? || j.status.Running?
  }

  // ---- recounts ---------------------------------------------------------------------------

  datatype Count = PendingJobs | ActiveOf(kind: JobType) | ActiveFor(kind: JobType, address: string)

  predicate Counts(c: Count, j: Job) {
    match c
    case PendingJobs => j.status.Pending?
    case ActiveOf(kind) => Active(j) && j.kind == kind
    case ActiveFor(kind, address) => Active(j) && j.kind == kind && j.payload.address == Some(address)
  }

  function Weight(c: Count, j: Job): int {
    if Counts(c, j) then 1 else 0
  }

  function Weights(jobs: Jobs, c: Count): map<nat, int> {
    map id | id in jobs :: Weight(c, jobs[id])
  }

  /** The recount: how many rows count. */
  ghost function Tally(jobs: Jobs, c: Count): int {
    Total(Weights(jobs, c))
  }

  lemma WeightsPut(jobs: Jobs, id: nat, j: Job, c: Count)
    ensures Weights(jobs[id := j], c) == Weights(jobs, c)[id := Weight(c, j)]
  {
    hide Weight;
  }

  lemma TallyPut(jobs: Jobs, id: nat, j: Job, c: Count)
    ensures Tally(jobs[id := j], c) == Tally(jobs, c) + Weight(c, j) - (if id in jobs then Weight(c, jobs[id]) else 0)
  {
    hide Total, Weight;
    TotalPut(Weights(jobs, c), id, Weight(c, j));
    WeightsPut(jobs, id, j, c);
  }

  lemma WeightsRemove(jobs: Jobs, id: nat, c: Count)
    ensures Weights(jobs - {id}, c) == Weights(jobs, c) - {id}
  {
    hide Weight;
  }

  lemma TallyRemove(jobs: Jobs, id: nat, c: Count)
    requires id in jobs
    ensures Tally(jobs, c) == Tally(jobs - {id}, c) + Weight(c, jobs[id])
  {
    hide Total, Weight;
    TotalRemove(Weights(jobs, c), id);
    WeightsRemove(jobs, id, c);
  }

  lemma TallyNonnegative(jobs: Jobs, c: Count)
    ensures Tally(jobs, c) >= 0
    ensures forall id :: id in jobs ==> Weight(c, jobs[id]) <= Tally(jobs, c)
  {
    TotalNonnegative(Weights(jobs, c));
    assert forall id :: id in jobs ==> Weights(jobs, c)[id] == Weight(c, jobs[id]);
  }

  lemma TallyZero(jobs: Jobs, c: Count)
    requires forall id :: id in jobs ==> !Counts(c, jobs[id])
    ensures Tally(jobs, c) == 0
  {
    TotalZero(Weights(jobs, c));
  }

  /** Rows that weigh no more than before add up to no more than before. */
  lemma TallyMonotone(a: Jobs, b: Jobs, c: Count)
    requires forall id :: id in a ==> id in b && Weight(c, a[id]) <= Weight(c, b[id])
    ensures Tally(a, c) <= Tally(b, c)
    decreases |b|
  {
    if id :| id in b && id !in a {
      TallyRemove(b, id, c);
      assert b == (b - {id})[id := b[id]];
      TallyMonotone(a, b - {id}, c);
    } else {
      assert a.Keys == b.Keys;
      TotalMonotone(Weights(a, c), Weights(b, c));
    }
  }

  // ---- admission --------------------------------------------------------------------------

  datatype Limits = Limits(maxQueueDepth: int, resumeDepth: int, expandPerAddress: int, expandGlobal: int,
                           backfillGlobal: int, auditGlobal: int)

  /** The rows, the next automatic id, and the scheduling latch. */
  datatype Table = Table(jobs: Jobs, nextId: nat, paused: bool)

  predicate FreshIds(t: Table) {
    forall id :: id in t.jobs ==> id < t.nextId
  }

  predicate Continues(kind: JobType, p: Payload) {
    kind.Backfill? && p.continuation
  }

  /** True when a per-type limit turns the job away. */
  ghost predicate OverLimit(limits: Limits, t: Table, kind: JobType, p: Payload) {
    || (kind.Expand? && Tally(t.jobs, ActiveOf(Expand)) >= limits.expandGlobal)
    || (kind.Expand? && p.address.Some? && p.address.value != ""
        && Tally(t.jobs, ActiveFor(Expand, p.address.value)) >= limits.expandPerAddress)
    || (kind.Backfill? && !p.continuation && Tally(t.jobs, ActiveOf(Backfill)) >= limits.backfillGlobal)
    || (kind.Audit? && Tally(t.jobs, ActiveOf(Audit)) >= limits.auditGlobal)
  }

  ghost predicate DepthReached(limits: Limits, t: Table) {
    Tally(t.jobs, PendingJobs) >= limits.maxQueueDepth
  }

  ghost predicate Admits(limits: Limits, t: Table, kind: JobType, p: Payload, bypass: bool) {
    bypass ||
    (if t.paused then Continues(kind, p)
     else !OverLimit(limits, t, kind, p) && (DepthReached(limits, t) ==> p.continuation))
  }

  /** The latch after an admission decision: it is set when the depth limit is reached. */
  ghost predicate PausedAfter(limits: Limits, t: Table, kind: JobType, p: Payload, bypass: bool) {
    t.paused || (!bypass && !OverLimit(limits, t, kind, p) && DepthReached(limits, t))
  }

  // ---- row changes ------------------------------------------------------------------------

  function NewJob(kind: JobType, p: Payload, priority: int, runAfter: int, now: int): Job {
    Job(kind, p, Pending, priority, runAfter, now, None, None, 0, 0, None)
  }

  function Claimed(j: Job, ts: int): Job {
    j.(status := Running, startedAt := Some(ts), completedAt := None)
  }

  function Completed(j: Job, ts: int): Job {
    j.(status := Done, completedAt := Some(ts), reclaimCount := 0, progress := None)
  }

  function Failed(j: Job, runAfter: int): Job {
    j.(status := Pending, attempts := j.attempts + 1, runAfter := runAfter, startedAt := None)
  }

  function Deferred(j: Job, runAfter: int): Job {
    j.(status := Pending, attempts := 0, runAfter := runAfter, startedAt := None)
  }

  datatype ReclaimRule = ReclaimRule(now: int, staleMs: int, deferAfter: int, deferSec: int)

  predicate Stale(rule: ReclaimRule, j: Job) {
    && j.status.Running?
    && (rule.staleMs <= 0 || j.startedAt.None? || j.startedAt.value <= rule.now - rule.staleMs)
  }

  /** A job reclaimed without progress often enough is put off instead. */
  function Reclaimed(rule: ReclaimRule, j: Job): Job {
    if rule.deferAfter > 0 && j.reclaimCount + 1 >= rule.deferAfter && j.progress == Some(j.payload.progress)
    then Deferred(j, rule.now + rule.deferSec * 1000).(reclaimCount := 0, progress := None)
    else j.(status := Pending, startedAt := None, reclaimCount := j.reclaimCount + 1,
            progress := Some(j.payload.progress))
  }

  function StaleIds(rule: ReclaimRule, jobs: Jobs): set<nat> {
    set id | id in jobs && Stale(rule, jobs[id])
  }

  /** The table once the given rows are reclaimed. */
  function ReclaimedRows(rule: ReclaimRule, jobs: Jobs, ids: set<nat>): Jobs {
    map id | id in jobs :: if id in ids then Reclaimed(rule, jobs[id]) else jobs[id]
  }

  lemma ReclaimedNone(rule: ReclaimRule, jobs: Jobs)
    ensures ReclaimedRows(rule, jobs, {}) == jobs
  {
  }

  lemma ReclaimedOneMore(rule: ReclaimRule, jobs: Jobs, left: set<nat>, id: nat)
    requires id in left && left <= StaleIds(rule, jobs)
    ensures var now := ReclaimedRows(rule, jobs, StaleIds(rule, jobs) - left);
            && id in now && now[id] == jobs[id] && jobs[id].status.Running?
            && ReclaimedRows(rule, jobs, StaleIds(rule, jobs) - (left - {id})) == now[id := Reclaimed(rule, jobs[id])]
  {
    hide Reclaimed;
  }

  lemma ReclaimedAll(limits: Limits, rule: ReclaimRule, t: Table)
    ensures t.(jobs := ReclaimedRows(rule, t.jobs, StaleIds(rule, t.jobs))) == Apply(limits, t, Reclaim(rule))
  {
    hide Reclaimed, Stale;
  }

  function DedupeTypes(types: Option<set<JobType>>, kind: JobType): set<JobType> {
    if types.Some? then types.value else {kind}
  }

  /** The address duplicates are looked for at; an empty one is none. */
  function DedupeAddress(address: Option<string>, p: Payload): string {
    if address.Some? then address.value else if p.address.Some? then p.address.value else ""
  }

  predicate Matches(j: Job, types: set<JobType>, address: string) {
    Active(j) && j.kind in types && (address == "" || j.payload.address == Some(address))
  }

  predicate ActiveAt(j: Job, address: string) {
    Active(j) && j.payload.address == Some(address)
  }

  // ---- operations -------------------------------------------------------------------------

  datatype Op =
    | Enqueue(kind: JobType, payload: Payload, priority: int, runAfter: int, now: int, bypass: bool)
    | EnqueueIfAbsent(kind: JobType, payload: Payload, priority: int, runAfter: int, now: int, bypass: bool,
                      types: Option<set<JobType>>, dedupeAddress: Option<string>)
    | Claim(id: nat, ts: int)
    | Complete(id: nat, ts: int)
    | Fail(id: nat, until: int)
    | Defer(id: nat, until: int)
    | Reclaim(rule: ReclaimRule)
    | DeleteFor(address: string)
    | DeleteActive
    | Prune(ids: set<nat>)
    | SetPaused(paused: bool)
    | MaybeClear

  ghost predicate Inserts(limits: Limits, t: Table, op: Op) {
    match op
    case Enqueue(kind, p, _, _, _, bypass) => Admits(limits, t, kind, p, bypass)
    case EnqueueIfAbsent(kind, p, _, _, _, bypass, types, address) =>
      Admits(limits, t, kind, p, bypass)
      && forall id :: id in t.jobs ==> !Matches(t.jobs[id], DedupeTypes(types, kind), DedupeAddress(address, p))
    case _ => false
  }

  ghost function Apply(limits: Limits, t: Table, op: Op): Table {
    match op
    case Enqueue(kind, p, priority, runAfter, now, bypass) =>
      var t' := t.(paused := PausedAfter(limits, t, kind, p, bypass));
      if Inserts(limits, t, op) then Insert(t', NewJob(kind, p, priority, runAfter, now)) else t'
    case EnqueueIfAbsent(kind, p, priority, runAfter, now, bypass, _, _) =>
      var t' := t.(paused := PausedAfter(limits, t, kind, p, bypass));
      if Inserts(limits, t, op) then Insert(t', NewJob(kind, p, priority, runAfter, now)) else t'
    case Claim(id, ts) =>
      if id in t.jobs && t.jobs[id].status.Pending? then Put(t, id, Claimed(t.jobs[id], ts)) else t
    case Complete(id, ts) => if id in t.jobs then Put(t, id, Completed(t.jobs[id], ts)) else t
    case Fail(id, until) => if id in t.jobs then Put(t, id, Failed(t.jobs[id], until)) else t
    case Defer(id, until) => if id in t.jobs then Put(t, id, Deferred(t.jobs[id], until)) else t
    case Reclaim(rule) =>
      t.(jobs := map id | id in t.jobs :: if Stale(rule, t.jobs[id]) then Reclaimed(rule, t.jobs[id]) else t.jobs[id])
    case DeleteFor(address) => t.(jobs := map id | id in t.jobs && !ActiveAt(t.jobs[id], address) :: t.jobs[id])
    case DeleteActive => t.(jobs := map id | id in t.jobs && !Active(t.jobs[id]) :: t.jobs[id])
    case Prune(ids) => t.(jobs := map id | id in t.jobs && !(id in ids && t.jobs[id].status.Done?) :: t.jobs[id])
    case SetPaused(paused) => t.(paused := paused)
    case MaybeClear => t.(paused := t.paused && Tally(t.jobs, PendingJobs) > limits.resumeDepth)
  }

  function Put(t: Table, id: nat, j: Job): Table {
    t.(jobs := t.jobs[id := j])
  }

  function Insert(t: Table, j: Job): Table {
    t.(jobs := t.jobs[t.nextId := j], nextId := t.nextId + 1)
  }
}
