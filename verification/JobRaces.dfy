/**
 * Enqueues whose admission check and INSERT are apart, so that others can pass the check in
 * between: by how much the caps can then be exceeded.
 */
module JobRaces {
  import opened Wrappers
  import opened JobTable
  import opened JobRuns

  predicate Enqueues(op: Op) {
    op.Enqueue? || op.EnqueueIfAbsent?
  }

  /** The table, and the enqueues that have passed the check and not yet inserted their row. */
  datatype Race = Race(table: Table, admitted: seq<Op>)

  datatype Step = Check(op: Op) | Finish(k: nat) | Besides(op: Op)

  /** Every enqueue makes two steps; nothing bypasses the caps or revives finished jobs. */
  predicate ValidStep(r: Race, step: Step) {
    match step
    case Check(op) => Enqueues(op) && !Bypasses(op)
    case Finish(k) => k < |r.admitted|
    case Besides(op) => !Enqueues(op) && ValidOp(r.table, op)
  }

  /** The INSERT of enqueueJobIfAbsent looks for duplicates itself. */
  predicate Joins(t: Table, op: Op)
    requires Enqueues(op)
  {
    op.EnqueueIfAbsent? ==>
      forall id :: id in t.jobs ==>
        !Matches(t.jobs[id], DedupeTypes(op.types, op.kind), DedupeAddress(op.dedupeAddress, op.payload))
  }

  ghost function RaceStep(limits: Limits, r: Race, step: Step): Race
    requires ValidStep(r, step) && forall i :: 0 <= i < |r.admitted| ==> Enqueues(r.admitted[i])
  {
    match step
    case Check(op) =>
      r.(table := r.table.(paused := PausedAfter(limits, r.table, op.kind, op.payload, op.bypass)),
         admitted := if Admits(limits, r.table, op.kind, op.payload, op.bypass) then r.admitted + [op] else r.admitted)
    case Finish(k) =>
      var op := r.admitted[k];
      r.(admitted := r.admitted[..k] + r.admitted[k + 1..],
         table := if Joins(r.table, op)
                  then Insert(r.table, NewJob(op.kind, op.payload, op.priority, op.runAfter, op.now))
                  else r.table)
    case Besides(op) => r.(table := Apply(limits, r.table, op))
  }

  predicate AllEnqueues(r: Race) {
    forall i :: 0 <= i < |r.admitted| ==> Enqueues(r.admitted[i])
  }

  /** A run of valid steps; what it reaches. */
  ghost predicate Runs(limits: Limits, r: Race, steps: seq<Step>, states: seq<Race>) {
    && |states| == |steps| + 1 && states[0] == r
    && forall i :: 0 <= i < |steps| ==>
         AllEnqueues(states[i]) && ValidStep(states[i], steps[i])
         && states[i + 1] == RaceStep(limits, states[i], steps[i])
  }

  // ---- the bound --------------------------------------------------------------------------

  /** The counts that have a cap; a continued backfill may exceed its own, so backfills have none. */
  predicate Capped(c: Count) {
    c == ActiveOf(Expand) || c == ActiveOf(Audit) || (c.ActiveFor? && c.kind == Expand && c.address != "")
  }

  function Cap(limits: Limits, c: Count): int
    requires Capped(c)
  {
    if c == ActiveOf(Expand) then limits.expandGlobal
    else if c == ActiveOf(Audit) then limits.auditGlobal
    else limits.expandPerAddress
  }

  function Adds(c: Count, op: Op): int
    requires Enqueues(op)
  {
    Weight(c, NewJob(op.kind, op.payload, 0, 0, 0))
  }

  /** What the admitted enqueues are about to add to a count. */
  function Pledged(admitted: seq<Op>, c: Count): (n: int)
    requires forall i :: 0 <= i < |admitted| ==> Enqueues(admitted[i])
    ensures 0 <= n <= |admitted|
  {
    if admitted == [] then 0 else Adds(c, admitted[0]) + Pledged(admitted[1..], c)
  }

  lemma {:induction false} PledgedJoin(a: seq<Op>, b: seq<Op>, c: Count)
    requires forall i :: 0 <= i < |a + b| ==> Enqueues((a + b)[i])
    ensures (forall i :: 0 <= i < |a| ==> Enqueues(a[i])) && forall i :: 0 <= i < |b| ==> Enqueues(b[i])
    ensures Pledged(a + b, c) == Pledged(a, c) + Pledged(b, c)
  {
    assert forall i :: 0 <= i < |a| ==> (a + b)[i] == a[i];
    assert forall i :: 0 <= i < |b| ==> (a + b)[|a| + i] == b[i];
    if a != [] {
      assert (a + b)[1..] == a[1..] + b;
      PledgedJoin(a[1..], b, c);
    } else {
      assert a + b == b;
    }
  }

  /** With every pledge kept, no cap is exceeded by as many jobs as may be in flight. */
  ghost predicate WithinReach(limits: Limits, r: Race, most: nat) {
    && FreshIds(r.table) && AllEnqueues(r)
    && forall c :: Capped(c) ==> Tally(r.table.jobs, c) + Pledged(r.admitted, c) <= Cap(limits, c) + most - 1
  }

  /** A job that passes the check finds each count it adds to below its cap. */
  lemma AdmittedBelow(limits: Limits, t: Table, op: Op, c: Count)
    requires Enqueues(op) && !Bypasses(op) && Capped(c) && Adds(c, op) > 0
    requires Admits(limits, t, op.kind, op.payload, op.bypass)
    ensures Tally(t.jobs, c) < Cap(limits, c)
  {
    hide Tally;
  }

  lemma CheckKeeps(limits: Limits, r: Race, op: Op, most: nat)
    requires WithinReach(limits, r, most) && ValidStep(r, Check(op))
    requires |RaceStep(limits, r, Check(op)).admitted| <= most
    ensures WithinReach(limits, RaceStep(limits, r, Check(op)), most)
  {
    hide Tally, Admits, PausedAfter, Adds;
    var r' := RaceStep(limits, r, Check(op));
    if Admits(limits, r.table, op.kind, op.payload, op.bypass) {
      forall c | Capped(c) ensures Tally(r'.table.jobs, c) + Pledged(r'.admitted, c) <= Cap(limits, c) + most - 1 {
        PledgedJoin(r.admitted, [op], c);
        assert Pledged([op], c) == Adds(c, op);
        if Adds(c, op) > 0 {
          AdmittedBelow(limits, r.table, op, c);
        }
      }
    }
  }

  lemma FinishKeeps(limits: Limits, r: Race, k: nat, most: nat)
    requires WithinReach(limits, r, most) && ValidStep(r, Finish(k))
    ensures WithinReach(limits, RaceStep(limits, r, Finish(k)), most)
  {
    hide Tally, Counts, Joins;
    var r', op := RaceStep(limits, r, Finish(k)), r.admitted[k];
    var job := NewJob(op.kind, op.payload, op.priority, op.runAfter, op.now);
    var before, after := r.admitted[..k], r.admitted[k + 1..];
    assert r.admitted == before + ([op] + after);
    forall c | Capped(c) ensures Tally(r'.table.jobs, c) + Pledged(r'.admitted, c) <= Cap(limits, c) + most - 1 {
      PledgedJoin(before, [op] + after, c);
      PledgedJoin([op], after, c);
      PledgedJoin(before, after, c);
      assert Pledged([op], c) == Adds(c, op);
      NewJobWeight(op, c);
      TallyPut(r.table.jobs, r.table.nextId, job, c);
      assert Tally(r.table.jobs, c) + Pledged(r.admitted, c) <= Cap(limits, c) + most - 1;
    }
  }

  lemma NewJobWeight(op: Op, c: Count)
    requires Enqueues(op)
    ensures Weight(c, NewJob(op.kind, op.payload, op.priority, op.runAfter, op.now)) == Adds(c, op) >= 0
  {
  }

  lemma BesidesKeeps(limits: Limits, r: Race, op: Op, most: nat)
    requires WithinReach(limits, r, most) && ValidStep(r, Besides(op))
    ensures WithinReach(limits, RaceStep(limits, r, Besides(op)), most)
  {
    hide Tally, Apply, ValidOp, Weight;
    ApplyKeepsFreshIds(limits, r.table, op);
    forall c | Capped(c) ensures Tally(Apply(limits, r.table, op).jobs, c) <= Tally(r.table.jobs, c) {
      ActiveGrowsByInsertion(limits, r.table, op, c);
    }
  }

  /**
   * If never more than `most` enqueues are between their check and their INSERT, no cap is
   * exceeded by as many; one at a time keeps the caps.
   */
  lemma {:induction false} OvershootBounded(limits: Limits, r: Race, steps: seq<Step>, states: seq<Race>, most: nat,
                                            n: nat)
    requires Runs(limits, r, steps, states) && WithinReach(limits, r, most) && n <= |steps|
    requires forall i :: 0 <= i < |states| ==> |states[i].admitted| <= most
    ensures WithinReach(limits, states[n], most)
    ensures forall c :: Capped(c) ==> Tally(states[n].table.jobs, c) <= Cap(limits, c) + most - 1
  {
    hide RaceStep, Tally, ValidStep;
    if n > 0 {
      OvershootBounded(limits, r, steps, states, most, n - 1);
      var s := states[n - 1];
      assert states[n - 1 + 1] == RaceStep(limits, s, steps[n - 1]);
      match steps[n - 1]
      case Check(op) => CheckKeeps(limits, s, op, most);
      case Finish(k) => FinishKeeps(limits, s, k, most);
      case Besides(op) => BesidesKeeps(limits, s, op, most);
    }
    assert forall c :: Capped(c) ==> Pledged(states[n].admitted, c) >= 0;
  }

  /** Nothing in between: the two steps are the enqueue of the job table. */
  lemma CheckThenFinish(limits: Limits, t: Table, op: Op)
    requires Enqueues(op) && !Bypasses(op)
    ensures var checked := RaceStep(limits, Race(t, []), Check(op));
            if checked.admitted == [] then checked == Race(Apply(limits, t, op), [])
            else checked.admitted == [op]
                 && RaceStep(limits, checked, Finish(0)) == Race(Apply(limits, t, op), [])
  {
    hide Tally, Admits, PausedAfter, Matches;
    var checked := RaceStep(limits, Race(t, []), Check(op));
    if checked.admitted != [] {
      assert checked.admitted[..0] + checked.admitted[1..] == [];
    }
  }

  // ---- the bound is reached ---------------------------------------------------------------

  /** An expansion without an address. */
  function Expansion(): Op {
    Enqueue(Expand, Payload(None, false, 0), 0, 0, 0, false)
  }

  function Copies(n: nat): seq<Op> {
    seq(n, _ => Expansion())
  }

  function Inserted(t: Table, n: nat): Table {
    if n == 0 then t else Insert(Inserted(t, n - 1), NewJob(Expand, Expansion().payload, 0, 0, 0))
  }

  lemma {:induction false} InsertedTally(t: Table, n: nat)
    requires FreshIds(t)
    ensures FreshIds(Inserted(t, n))
            && Tally(Inserted(t, n).jobs, ActiveOf(Expand)) == Tally(t.jobs, ActiveOf(Expand)) + n
  {
    hide Tally;
    if n > 0 {
      InsertedTally(t, n - 1);
      var s := Inserted(t, n - 1);
      TallyPut(s.jobs, s.nextId, NewJob(Expand, Expansion().payload, 0, 0, 0), ActiveOf(Expand));
    }
  }

  /** Any number of checks, and then as many insertions. */
  function Burst(n: nat): seq<Step> {
    seq(2 * n, i => if i < n then Check(Expansion()) else Finish(0))
  }

  function BurstState(t: Table, n: nat, i: nat): Race
    requires i <= 2 * n
  {
    if i <= n then Race(t, Copies(i)) else Race(Inserted(t, i - n), Copies(2 * n - i))
  }

  function BurstStates(t: Table, n: nat): seq<Race> {
    seq(2 * n + 1, i requires 0 <= i <= 2 * n => BurstState(t, n, i))
  }

  lemma BurstChecks(limits: Limits, t: Table, n: nat)
    requires !t.paused && !DepthReached(limits, t) && Tally(t.jobs, ActiveOf(Expand)) < limits.expandGlobal
    ensures RaceStep(limits, Race(t, Copies(n)), Check(Expansion())) == Race(t, Copies(n + 1))
  {
    hide Tally;
    assert Copies(n) + [Expansion()] == Copies(n + 1);
  }

  lemma BurstFinishes(limits: Limits, t: Table, done: nat, left: nat)
    requires left > 0
    ensures RaceStep(limits, Race(Inserted(t, done), Copies(left)), Finish(0))
            == Race(Inserted(t, done + 1), Copies(left - 1))
  {
    assert Copies(left)[..0] + Copies(left)[1..] == Copies(left - 1);
  }

  lemma BurstRuns(limits: Limits, t: Table, n: nat)
    requires !t.paused && !DepthReached(limits, t) && Tally(t.jobs, ActiveOf(Expand)) < limits.expandGlobal
    ensures Runs(limits, Race(t, []), Burst(n), BurstStates(t, n))
  {
    hide Tally, Inserted, RaceStep;
    var steps, states := Burst(n), BurstStates(t, n);
    forall i: nat | i < 2 * n
      ensures AllEnqueues(states[i]) && ValidStep(states[i], steps[i])
      ensures states[i + 1] == RaceStep(limits, states[i], steps[i])
    {
      if i < n {
        BurstChecks(limits, t, i);
      } else {
        StartsInserting(t);
        BurstFinishes(limits, t, i - n, 2 * n - i);
      }
    }
  }

  lemma StartsInserting(t: Table)
    ensures Inserted(t, 0) == t
  {
  }

  /** One below a cap, as many enqueues as are in flight at once take the table that far beyond it. */
  lemma OvershootReached(limits: Limits, t: Table, most: nat)
    requires FreshIds(t) && !t.paused && !DepthReached(limits, t) && most > 0
    requires Tally(t.jobs, ActiveOf(Expand)) == limits.expandGlobal - 1
    ensures var states := BurstStates(t, most);
            && Runs(limits, Race(t, []), Burst(most), states)
            && (forall i :: 0 <= i < |states| ==> |states[i].admitted| <= most)
            && Tally(states[2 * most].table.jobs, ActiveOf(Expand)) == limits.expandGlobal + most - 1
  {
    hide Tally, Runs;
    BurstRuns(limits, t, most);
    InsertedTally(t, most);
  }
}
