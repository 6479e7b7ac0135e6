/** Safety of the job table over whole runs of operations. */
module JobRuns {
  import opened JobTable

  /** Failing or deferring a finished job would revive it; everything else is unrestricted. */
  predicate ValidOp(t: Table, op: Op) {
    match op
    case Fail(id, _) => id in t.jobs ==> Active(t.jobs[id])
    case Defer(id, _) => id in t.jobs ==> Active(t.jobs[id])
    case _ => true
  }

  predicate Bypasses(op: Op) {
    (op.Enqueue? || op.EnqueueIfAbsent?) && op.bypass
  }

  ghost function StateAt(limits: Limits, t: Table, ops: seq<Op>, n: nat): Table
    requires n <= |ops|
  {
    if n == 0 then t else Apply(limits, StateAt(limits, t, ops, n - 1), ops[n - 1])
  }

  /** A run of valid operations, none of which bypasses the caps. */
  ghost predicate PlainRun(limits: Limits, t: Table, ops: seq<Op>) {
    forall i :: 0 <= i < |ops| ==> ValidOp(StateAt(limits, t, ops, i), ops[i]) && !Bypasses(ops[i])
  }

  lemma ApplyKeepsFreshIds(limits: Limits, t: Table, op: Op)
    requires FreshIds(t)
    ensures FreshIds(Apply(limits, t, op)) && Apply(limits, t, op).nextId >= t.nextId
  {
  }

  lemma {:induction false} RunKeepsFreshIds(limits: Limits, t: Table, ops: seq<Op>, n: nat)
    requires FreshIds(t) && n <= |ops|
    ensures FreshIds(StateAt(limits, t, ops, n)) && StateAt(limits, t, ops, n).nextId >= t.nextId
  {
    if n > 0 {
      RunKeepsFreshIds(limits, t, ops, n - 1);
      ApplyKeepsFreshIds(limits, StateAt(limits, t, ops, n - 1), ops[n - 1]);
    }
  }

  // ---- caps -------------------------------------------------------------------------------

  ghost predicate WithinCaps(limits: Limits, t: Table) {
    && Tally(t.jobs, ActiveOf(Expand)) <= limits.expandGlobal
    && Tally(t.jobs, ActiveOf(Audit)) <= limits.auditGlobal
    && forall a :: a != "" ==> Tally(t.jobs, ActiveFor(Expand, a)) <= limits.expandPerAddress
  }

  /** Only an insertion can add to the active jobs. */
  lemma ActiveGrowsByInsertion(limits: Limits, t: Table, op: Op, c: Count)
    requires FreshIds(t) && ValidOp(t, op) && !c.PendingJobs?
    ensures Tally(Apply(limits, t, op).jobs, c)
            <= Tally(t.jobs, c)
              + (if Inserts(limits, t, op) then Weight(c, NewJob(op.kind, op.payload, 0, 0, 0)) else 0)
  {
    hide Tally;
    var after := Apply(limits, t, op).jobs;
    if Inserts(limits, t, op) {
      TallyPut(t.jobs, t.nextId, NewJob(op.kind, op.payload, op.priority, op.runAfter, op.now), c);
    } else {
      TallyMonotone(after, t.jobs, c);
    }
  }

  lemma CapsStep(limits: Limits, t: Table, op: Op)
    requires FreshIds(t) && WithinCaps(limits, t) && ValidOp(t, op) && !Bypasses(op)
    ensures WithinCaps(limits, Apply(limits, t, op))
  {
    hide Apply, Tally;
    ActiveGrowsByInsertion(limits, t, op, ActiveOf(Expand));
    ActiveGrowsByInsertion(limits, t, op, ActiveOf(Audit));
    forall a | a != ""
      ensures Tally(Apply(limits, t, op).jobs, ActiveFor(Expand, a)) <= limits.expandPerAddress
    {
      ActiveGrowsByInsertion(limits, t, op, ActiveFor(Expand, a));
    }
  }

  /** Active expand jobs, per address too, and active audits stay within their caps over every run. */
  lemma {:induction false} CapsHold(limits: Limits, t: Table, ops: seq<Op>, n: nat)
    requires FreshIds(t) && WithinCaps(limits, t) && PlainRun(limits, t, ops) && n <= |ops|
    ensures WithinCaps(limits, StateAt(limits, t, ops, n))
  {
    hide Apply, WithinCaps;
    if n > 0 {
      CapsHold(limits, t, ops, n - 1);
      RunKeepsFreshIds(limits, t, ops, n - 1);
      CapsStep(limits, StateAt(limits, t, ops, n - 1), ops[n - 1]);
    }
  }

  // ---- the latch --------------------------------------------------------------------------

  ghost predicate Latched(limits: Limits, t: Table, ops: seq<Op>, n: nat)
    requires n <= |ops|
  {
    StateAt(limits, t, ops, n).paused
  }

  /** No operation of the run takes the latch off. */
  ghost predicate NoClear(limits: Limits, t: Table, ops: seq<Op>) {
    forall i {:trigger ops[i]} :: 0 <= i < |ops| && Latched(limits, t, ops, i) ==> Latched(limits, t, ops, i + 1)
  }

  /** A job inserted without bypass at full depth that is not a backfill continuation. */
  ghost predicate Overflow(limits: Limits, t: Table, op: Op) {
    && Inserts(limits, t, op) && !Bypasses(op)
    && DepthReached(limits, t) && !Continues(op.kind, op.payload)
  }

  ghost function Overflows(limits: Limits, t: Table, ops: seq<Op>, n: nat): nat
    requires n <= |ops|
  {
    if n == 0 then 0
    else Overflows(limits, t, ops, n - 1)
         + if Overflow(limits, StateAt(limits, t, ops, n - 1), ops[n - 1]) then 1 else 0
  }

  lemma OverflowLatches(limits: Limits, t: Table, op: Op)
    requires Overflow(limits, t, op)
    ensures !t.paused && Apply(limits, t, op).paused
  {
    hide Tally;
  }

  /** Between two latch clears at most one such job is inserted, and none once the latch is on. */
  lemma {:induction false} AtMostOneOverflow(limits: Limits, t: Table, ops: seq<Op>, n: nat)
    requires NoClear(limits, t, ops) && n <= |ops|
    ensures Overflows(limits, t, ops, n) <= 1
    ensures t.paused ==> Overflows(limits, t, ops, n) == 0 && Latched(limits, t, ops, n)
    ensures Overflows(limits, t, ops, n) > 0 ==> Latched(limits, t, ops, n)
  {
    hide Apply, Overflow;
    if n > 0 {
      AtMostOneOverflow(limits, t, ops, n - 1);
      var s, op := StateAt(limits, t, ops, n - 1), ops[n - 1];
      assert Latched(limits, t, ops, n - 1) ==> Latched(limits, t, ops, n);
      if Overflow(limits, s, op) {
        OverflowLatches(limits, s, op);
      }
    }
  }

  lemma LatchedInsert(limits: Limits, t: Table, op: Op)
    requires t.paused && Inserts(limits, t, op) && !Bypasses(op)
    ensures Continues(op.kind, op.payload)
  {
  }

  /** Every row with an id from `first` on is a backfill continuation. */
  predicate AllContinue(jobs: Jobs, first: nat) {
    forall id :: id in jobs && id >= first ==> Continues(jobs[id].kind, jobs[id].payload)
  }

  lemma LatchedStep(limits: Limits, t: Table, op: Op, first: nat)
    requires FreshIds(t) && t.paused && !Bypasses(op) && AllContinue(t.jobs, first)
    ensures AllContinue(Apply(limits, t, op).jobs, first)
  {
    KeepsPayloads(limits, t, op);
    if Inserts(limits, t, op) {
      LatchedInsert(limits, t, op);
    }
    hide Apply, Inserts;
  }

  /** While the latch stays on, only backfill continuations join the table. */
  lemma {:induction false} LatchedInsertsContinue(limits: Limits, t: Table, ops: seq<Op>, n: nat)
    requires FreshIds(t) && t.paused && n <= |ops|
    requires NoClear(limits, t, ops) && forall i :: 0 <= i < |ops| ==> !Bypasses(ops[i])
    ensures Latched(limits, t, ops, n)
    ensures AllContinue(StateAt(limits, t, ops, n).jobs, t.nextId)
  {
    hide Apply, AllContinue;
    if n > 0 {
      LatchedInsertsContinue(limits, t, ops, n - 1);
      RunKeepsFreshIds(limits, t, ops, n - 1);
      LatchedStep(limits, StateAt(limits, t, ops, n - 1), ops[n - 1], t.nextId);
      assert Latched(limits, t, ops, n - 1) && ops[n - 1] == ops[n - 1];
    } else {
      FreshRowsContinue(t);
    }
  }

  lemma FreshRowsContinue(t: Table)
    requires FreshIds(t)
    ensures AllContinue(t.jobs, t.nextId)
  {
  }

  /** A row keeps its type and payload for life; a new row was inserted by this operation. */
  lemma KeepsPayloads(limits: Limits, t: Table, op: Op)
    ensures var jobs := Apply(limits, t, op).jobs;
            forall id :: id in jobs ==>
              || (id in t.jobs && jobs[id].kind == t.jobs[id].kind && jobs[id].payload == t.jobs[id].payload)
              || (id == t.nextId && Inserts(limits, t, op) && jobs[id].kind == op.kind
                  && jobs[id].payload == op.payload)
  {
  }

  // ---- duplicates -------------------------------------------------------------------------

  predicate HasMatch(jobs: Jobs, id: nat, types: set<JobType>, address: string) {
    id in jobs && Matches(jobs[id], types, address)
  }

  /** A job enqueued only if absent, under a type and address of its own, is the one active match afterwards. */
  lemma OnlyMatch(limits: Limits, t: Table, op: Op, id: nat)
    requires op.EnqueueIfAbsent? && Inserts(limits, t, op)
    requires op.types.Some? ==> op.kind in op.types.value
    requires op.dedupeAddress.None? || op.dedupeAddress.value == "" || op.dedupeAddress == op.payload.address
    ensures HasMatch(Apply(limits, t, op).jobs, id, DedupeTypes(op.types, op.kind),
                     DedupeAddress(op.dedupeAddress, op.payload))
            <==> id == t.nextId
  {
  }

  // ---- claims -----------------------------------------------------------------------------

  ghost predicate PendingAt(limits: Limits, t: Table, ops: seq<Op>, n: nat, id: nat)
    requires n <= |ops|
  {
    IsPending(StateAt(limits, t, ops, n), id)
  }

  /** Operation n is a claim of the job that succeeds. */
  ghost predicate ClaimWins(limits: Limits, t: Table, ops: seq<Op>, n: nat, id: nat)
    requires n < |ops|
  {
    ops[n].Claim? && ops[n].id == id && PendingAt(limits, t, ops, n, id)
  }

  /** Operation n hands a claimed job back to the queue. */
  ghost predicate Releases(limits: Limits, t: Table, ops: seq<Op>, n: nat, id: nat)
    requires n < |ops|
  {
    && (ops[n].Fail? || ops[n].Defer? || ops[n].Reclaim?)
    && !PendingAt(limits, t, ops, n, id) && PendingAt(limits, t, ops, n + 1, id)
  }

  ghost predicate IsPending(t: Table, id: nat) {
    id in t.jobs && t.jobs[id].status.Pending?
  }

  lemma BecomesPending(limits: Limits, t: Table, op: Op, id: nat)
    requires FreshIds(t) && id < t.nextId
    requires !IsPending(t, id) && IsPending(Apply(limits, t, op), id)
    ensures op.Fail? || op.Defer? || op.Reclaim?
  {
  }

  lemma {:induction false} PendingByRelease(limits: Limits, t: Table, ops: seq<Op>, from: nat, to: nat, id: nat)
      returns (n: nat)
    requires FreshIds(t) && from <= to <= |ops| && id < StateAt(limits, t, ops, from).nextId
    requires !PendingAt(limits, t, ops, from, id) && PendingAt(limits, t, ops, to, id)
    ensures from <= n < to && Releases(limits, t, ops, n, id)
    decreases |ops| - from
  {
    hide Apply;
    var s := StateAt(limits, t, ops, from);
    RunKeepsFreshIds(limits, t, ops, from);
    ApplyKeepsFreshIds(limits, s, ops[from]);
    if PendingAt(limits, t, ops, from + 1, id) {
      BecomesPending(limits, s, ops[from], id);
      n := from;
    } else {
      n := PendingByRelease(limits, t, ops, from + 1, to, id);
    }
  }

  /** However claims interleave, a job is not won twice without being released in between. */
  lemma OneClaimer(limits: Limits, t: Table, ops: seq<Op>, first: nat, second: nat, id: nat) returns (n: nat)
    requires FreshIds(t) && first < second < |ops|
    requires ClaimWins(limits, t, ops, first, id) && ClaimWins(limits, t, ops, second, id)
    ensures first < n < second && Releases(limits, t, ops, n, id)
  {
    RunKeepsFreshIds(limits, t, ops, first);
    n := PendingByRelease(limits, t, ops, first + 1, second, id);
  }
}
