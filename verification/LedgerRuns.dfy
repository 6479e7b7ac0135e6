/** Which figures stay exact over whole runs of address and edge methods. */
module LedgerRuns {
  import opened LedgerTable
  import opened HackStats
  import opened EdgeBatch
  import opened LedgerBook
  import opened LedgerSteps
  import opened LedgerEdges
  import opened LedgerBatches
  import opened LedgerRepairs

  datatype Op =
    | UpsertOne(data: Upsert)
    | InsertIfMissing(data: Upsert)
    | UpsertMany(upserts: seq<Upsert>)
    | UpsertEdges(rows: seq<EdgeRow>)
    | RecalcTotal(address: string)
    | RecalcInbound(address: string)
    | DeleteTouching(address: string)
    | DeleteTrace

  ghost function Apply(size: nat, b: Book, op: Op): Book
    requires size > 0
  {
    match op
    case UpsertOne(data) => Upserted(b, data)
    case InsertIfMissing(data) => InsertedIfMissing(b, data)
    case UpsertMany(upserts) => UpsertedMany(b, upserts)
    case UpsertEdges(rows) => EdgesUpserted(b, rows, size)
    case RecalcTotal(a) => Recalculated(b, a)
    case RecalcInbound(a) => InboundRecalculated(b, a)
    case DeleteTouching(a) => EdgesDeleted(b, a)
    case DeleteTrace => TraceDeleted(b)
  }

  ghost function StateAt(size: nat, b: Book, ops: seq<Op>, n: nat): Book
    requires size > 0 && n <= |ops|
  {
    if n == 0 then b else Apply(size, StateAt(size, b, ops, n - 1), ops[n - 1])
  }

  // ---- the hack statistics ------------------------------------------------------------------

  /** What the hack statistics rest on; clamped figures are never negative. */
  ghost predicate Sound(b: Book) {
    HackStatsExact(b) && AboveZero(b)
  }

  ghost predicate UpsertHarmless(b: Book, data: Upsert) {
    !Upsets(b.addresses, Row(b.addresses, data.address), Merged(Row(b.addresses, data.address), data))
  }

  /** The operations after which they are exact: nothing is missed, and no figure is held at zero. */
  ghost predicate Accounted(size: nat, b: Book, op: Op)
    requires size > 0
  {
    match op
    case UpsertOne(data) => UpsertHarmless(b, data)
    case InsertIfMissing(data) => data.address in b.addresses || UpsertHarmless(b, data)
    case UpsertMany(upserts) => BatchHarmless(b.addresses, upserts)
    case UpsertEdges(rows) => StatsFollow(b, rows, size)
    case RecalcTotal(a) => !RepairOverdraws(b, a)
    case _ => true
  }

  /** From exact statistics: an operation upsets them if and only if it is not accounted for. */
  lemma SoundStep(size: nat, b: Book, op: Op)
    requires size > 0 && Sound(b)
    ensures var b' := Apply(size, b, op);
            && AboveZero(b')
            && (Accounted(size, b, op) ==> HackStatsExact(b'))
            && (!op.UpsertMany? && HackStatsExact(b') ==> Accounted(size, b, op))
  {
    hide HackStatsExact, Upsets, Positive, StatsFollow, BatchHarmless, EdgesUpserted, EdgesDeleted, TraceDeleted,
         UpsertedMany, Upserted, Recalculated, InboundRecalculated, SumEdges, PeaksExact, AnyIncoming, AnyCounted,
         GrandTotalExact, TotalsExact, InboundExact, ActiveExact, Covered, RepairOverdraws, NoDebt, Nonnegative, Merged;
    match op
    case UpsertOne(data) => UpsertStats(b, data);
    case InsertIfMissing(data) => UpsertStats(b, data);
    case UpsertMany(upserts) => UpsertManyKeeps(b, upserts);
    case UpsertEdges(rows) => BatchStats(b, rows, size);
    case RecalcTotal(a) => RecalcKeeps(b, a);
    case RecalcInbound(a) => RecalcInboundKeeps(b, a);
    case DeleteTouching(a) => DeleteTouchingKeeps(b, a);
    case DeleteTrace => DeleteTraceKeeps(b);
  }

  lemma UpsertStats(b: Book, data: Upsert)
    requires Sound(b)
    ensures AboveZero(Upserted(b, data)) && (HackStatsExact(Upserted(b, data)) <==> UpsertHarmless(b, data))
  {
    hide HackStatsExact, Upsets, Nonnegative, CountStep, SatsStep;
    UpsertKeeps(b, data);
  }

  ghost predicate AccountedRun(size: nat, b: Book, ops: seq<Op>)
    requires size > 0
  {
    forall i :: 0 <= i < |ops| ==> Accounted(size, StateAt(size, b, ops, i), ops[i])
  }

  /**
   * Over every such run, with repairs and deletions anywhere, hacker_count and total_in_sats are
   * the recounts at every step; the count of active hackers plays no part.
   */
  lemma {:induction false} HackStatsHold(size: nat, b: Book, ops: seq<Op>, n: nat)
    requires size > 0 && Sound(b) && AccountedRun(size, b, ops) && n <= |ops|
    ensures Sound(StateAt(size, b, ops, n))
  {
    hide HackStatsExact, AboveZero, Accounted, Apply;
    if n > 0 {
      HackStatsHold(size, b, ops, n - 1);
      assert Accounted(size, StateAt(size, b, ops, n - 1), ops[n - 1]);
      SoundStep(size, StateAt(size, b, ops, n - 1), ops[n - 1]);
    }
  }

  ghost predicate ExactRun(size: nat, b: Book, ops: seq<Op>)
    requires size > 0
  {
    forall n: nat :: n <= |ops| ==> HackStatsExact(StateAt(size, b, ops, n))
  }

  lemma {:induction false} ExactIsSound(size: nat, b: Book, ops: seq<Op>, n: nat)
    requires size > 0 && Sound(b) && n <= |ops| && ExactRun(size, b, ops)
    ensures Sound(StateAt(size, b, ops, n))
  {
    hide HackStatsExact, AboveZero, Accounted, Apply;
    if n > 0 {
      ExactIsSound(size, b, ops, n - 1);
      SoundStep(size, StateAt(size, b, ops, n - 1), ops[n - 1]);
      assert HackStatsExact(StateAt(size, b, ops, n));
    }
  }

  /** Without batches of upserts: exact at every step if and only if every step is accounted for. */
  lemma HackStatsHoldExact(size: nat, b: Book, ops: seq<Op>)
    requires size > 0 && Sound(b) && forall i :: 0 <= i < |ops| ==> !ops[i].UpsertMany?
    ensures AccountedRun(size, b, ops) <==> ExactRun(size, b, ops)
  {
    hide HackStatsExact, AboveZero, Accounted, Apply;
    if AccountedRun(size, b, ops) {
      forall n: nat | n <= |ops| ensures HackStatsExact(StateAt(size, b, ops, n)) {
        HackStatsHold(size, b, ops, n);
      }
    }
    if ExactRun(size, b, ops) {
      forall i | 0 <= i < |ops| ensures Accounted(size, StateAt(size, b, ops, i), ops[i]) {
        ExactIsSound(size, b, ops, i);
        SoundStep(size, StateAt(size, b, ops, i), ops[i]);
        assert HackStatsExact(StateAt(size, b, ops, i + 1));
      }
    }
  }

  // ---- covered runs -------------------------------------------------------------------------

  /** Upserts write totals to new rows only, and no less than the edges say. */
  ghost predicate Covering(b: Book, data: Upsert) {
    if data.address in b.addresses then data.total.None?
    else Or(data.total, 0) >= SumEdges(b.edges, InTo(data.address))
  }

  /** The total a batch of upserts leaves an address with. */
  function TotalAfter(b: Book, upserts: seq<Upsert>, a: string): int
    requires a in Addressed(upserts)
  {
    AllMergedKeys(b.addresses, upserts);
    PutAllMerged(b.addresses, upserts)[a].total
  }

  /** Every row the batch makes has a total no less than the edges say. */
  ghost predicate AllCovering(b: Book, upserts: seq<Upsert>) {
    forall a :: a in Addressed(upserts) - b.addresses.Keys ==>
      TotalAfter(b, upserts, a) >= SumEdges(b.edges, InTo(a))
  }

  /** What a caller can see to: no total is overwritten, and edge batches are orderly. */
  ghost predicate Careful(size: nat, b: Book, op: Op)
    requires size > 0
  {
    match op
    case UpsertOne(data) => Covering(b, data)
    case InsertIfMissing(data) => data.address in b.addresses || Covering(b, data)
    case UpsertMany(upserts) => Plain(b.addresses, upserts) && AllCovering(b, upserts)
    case UpsertEdges(rows) => OrderlyBatch(b.edges, rows, size) && PositiveRows(rows)
    case _ => true
  }

  lemma CoveringKeeps(b: Book, data: Upsert)
    requires Covered(b) && Covering(b, data)
    ensures Covered(Upserted(b, data)) && UpsertHarmless(b, data)
  {
    hide SumEdges, SumAddresses, Positive, Upsets, NoDebt;
    var after := Merged(Row(b.addresses, data.address), data);
    CoveredPositive(b);
    CoveredNoDebt(b);
    SumNonnegative(b.edges, InTo(data.address));
    TotalNonnegative(b, data.address);
    TotalKept(b.addresses, data.address, after) by {
      assert data.address !in b.addresses ==> after.total >= 0;
    }
    var b' := Upserted(b, data);
    assert b'.addresses == b.addresses[data.address := after];
  }

  lemma TotalNonnegative(b: Book, a: string)
    requires NoDebt(b.addresses)
    ensures a in b.addresses ==> b.addresses[a].total >= 0
  {
  }

  lemma ManyCovered(b: Book, upserts: seq<Upsert>)
    requires Covered(b) && Plain(b.addresses, upserts) && AllCovering(b, upserts)
    ensures Covered(UpsertedMany(b, upserts))
  {
    hide SumEdges, UpsertedMany, PutAllMerged, Addressed, BatchHarmless, Positive, NoDebt, Plain;
    CoveredNoDebt(b);
    UpsertManyKeeps(b, upserts);
    PlainTotals(b.addresses, upserts);
    AllMergedKeys(b.addresses, upserts);
    var b' := UpsertedMany(b, upserts);
    forall a | a in b'.addresses ensures b'.addresses[a].total >= SumEdges(b.edges, InTo(a)) {
      if a !in b.addresses {
        assert a in Addressed(upserts);
        assert TotalAfter(b, upserts, a) == b'.addresses[a].total;
      }
    }
  }

  lemma BatchCovered(b: Book, rows: seq<EdgeRow>, size: nat)
    requires size > 0 && OrderlyBatch(b.edges, rows, size) && PositiveRows(rows) && Covered(b) && HackStatsExact(b)
    ensures StatsFollow(b, rows, size) && Covered(EdgesUpserted(b, rows, size))
  {
    hide OrderlyBatch, PositiveRows, HackStatsExact, StatsFollow, ChunksUpserted, SumEdges, Positive;
    CoveredFollows(b, rows, size);
    assert Covered(ChunksUpserted(b, rows, size));
  }

  lemma CoveredStep(size: nat, b: Book, op: Op)
    requires size > 0 && Covered(b) && HackStatsExact(b) && Careful(size, b, op)
    ensures Covered(Apply(size, b, op)) && Accounted(size, b, op) && AboveZero(b)
  {
    hide Covered, Covering, AllCovering, Upsets, Positive, PositiveRows, StatsFollow, BatchHarmless, EdgesUpserted,
         EdgesDeleted, TraceDeleted, UpsertedMany, Upserted, Recalculated, InboundRecalculated, SumEdges, PeaksExact,
         AnyIncoming, AnyCounted, GrandTotalExact, TotalsExact, InboundExact, ActiveExact, HackStatsExact, NoDebt,
         OrderlyBatch, UpsertHarmless, RepairOverdraws, Nonnegative;
    CoveredPositive(b);
    CoveredNoDebt(b);
    NoDebtAbove(b);
    match op
    case UpsertOne(data) => CoveringKeeps(b, data);
    case InsertIfMissing(data) =>
      if data.address !in b.addresses {
        CoveringKeeps(b, data);
      }
    case UpsertMany(upserts) =>
      PlainHarmless(b.addresses, upserts);
      ManyCovered(b, upserts);
    case UpsertEdges(rows) => BatchCovered(b, rows, size);
    case RecalcTotal(a) => RecalcKeeps(b, a);
    case RecalcInbound(a) => RecalcInboundKeeps(b, a);
    case DeleteTouching(a) => DeleteTouchingKeeps(b, a);
    case DeleteTrace => DeleteTraceKeeps(b);
  }

  ghost predicate CarefulRun(size: nat, b: Book, ops: seq<Op>)
    requires size > 0
  {
    forall i :: 0 <= i < |ops| ==> Careful(size, StateAt(size, b, ops, i), ops[i])
  }

  /** Careful runs keep the statistics exact, and no total below its edges. */
  lemma {:induction false} CarefulHold(size: nat, b: Book, ops: seq<Op>, n: nat)
    requires size > 0 && Covered(b) && HackStatsExact(b) && CarefulRun(size, b, ops) && n <= |ops|
    ensures var s := StateAt(size, b, ops, n);
            Covered(s) && HackStatsExact(s)
  {
    hide Covered, HackStatsExact, Careful, Apply, Accounted, AboveZero;
    if n > 0 {
      CarefulHold(size, b, ops, n - 1);
      var s := StateAt(size, b, ops, n - 1);
      assert Careful(size, s, ops[n - 1]);
      CoveredStep(size, s, ops[n - 1]);
      SoundStep(size, s, ops[n - 1]);
    }
  }

  // ---- the count of active hackers ----------------------------------------------------------

  /** Only a repair that makes an address active or inactive upsets the count. */
  ghost predicate CountsActive(b: Book, op: Op) {
    op.RecalcTotal? ==> ActivityKept(b, Recalculated(b, op.address), op.address)
  }

  lemma ActiveStepExact(size: nat, b: Book, op: Op)
    requires size > 0 && ActiveExact(b)
    ensures ActiveExact(Apply(size, b, op)) <==> CountsActive(b, op)
  {
    hide HackStatsExact, Upsets, Positive, StatsFollow, EdgesUpserted, EdgesDeleted, TraceDeleted,
         UpsertedMany, Upserted, Recalculated, InboundRecalculated, SumEdges, PeaksExact, AnyIncoming, AnyCounted,
         GrandTotalExact, TotalsExact, InboundExact, ActiveExact, Covered, ActivityKept, NoDebt, BatchHarmless,
         RepairOverdraws, Nonnegative;
    match op
    case UpsertOne(data) => UpsertKeeps(b, data);
    case InsertIfMissing(data) => UpsertKeeps(b, data);
    case UpsertMany(upserts) => UpsertManyKeeps(b, upserts);
    case UpsertEdges(rows) => BatchStats(b, rows, size);
    case RecalcTotal(a) => RecalcKeeps(b, a);
    case RecalcInbound(a) => RecalcInboundKeeps(b, a);
    case DeleteTouching(a) => DeleteTouchingKeeps(b, a);
    case DeleteTrace => DeleteTraceKeeps(b);
  }

  ghost predicate ActiveRun(size: nat, b: Book, ops: seq<Op>)
    requires size > 0
  {
    forall i :: 0 <= i < |ops| ==> CountsActive(StateAt(size, b, ops, i), ops[i])
  }

  /** The count of active hackers is the recount at every step of a run without such a repair. */
  lemma {:induction false} ActiveHold(size: nat, b: Book, ops: seq<Op>, n: nat)
    requires size > 0 && ActiveExact(b) && ActiveRun(size, b, ops) && n <= |ops|
    ensures ActiveExact(StateAt(size, b, ops, n))
  {
    hide ActiveExact, CountsActive, Apply;
    if n > 0 {
      ActiveHold(size, b, ops, n - 1);
      assert CountsActive(StateAt(size, b, ops, n - 1), ops[n - 1]);
      ActiveStepExact(size, StateAt(size, b, ops, n - 1), ops[n - 1]);
    }
  }

  // ---- inbound sums -------------------------------------------------------------------------

  ghost predicate UnpaidOrKnown(b: Book, a: string) {
    a in b.addresses || SumEdges(b.edges, OutTo(a)) == 0
  }

  ghost predicate AllUnpaidOrKnown(b: Book, upserts: seq<Upsert>) {
    forall a :: a in Addressed(upserts) ==> UnpaidOrKnown(b, a)
  }

  /** A new row has no outgoing edges to it yet; an edge batch does not drift; all else is free. */
  ghost predicate SeesInbound(size: nat, b: Book, op: Op)
    requires size > 0
  {
    match op
    case UpsertOne(data) => UnpaidOrKnown(b, data.address)
    case InsertIfMissing(data) => UnpaidOrKnown(b, data.address)
    case UpsertMany(upserts) => AllUnpaidOrKnown(b, upserts)
    case UpsertEdges(rows) => InboundFollows(b, rows, size)
    case _ => true
  }

  lemma {:induction false} MergedInbound(before: Addresses, rows: seq<Upsert>)
    ensures var final := PutAllMerged(before, rows);
            forall a :: a in final ==> final[a].inbound == if a in before then before[a].inbound else 0
  {
    if rows != [] {
      AllMergedKeys(before, rows[..|rows| - 1]);
      MergedInbound(before, rows[..|rows| - 1]);
    }
  }

  lemma ManyInbound(b: Book, upserts: seq<Upsert>)
    requires InboundExact(b)
    ensures InboundExact(UpsertedMany(b, upserts)) <==> AllUnpaidOrKnown(b, upserts)
  {
    hide SumEdges, UpsertedMany, PutAllMerged, Addressed, BatchHarmless, HackStatsExact, AboveZero, ActiveExact;
    UpsertManyKeeps(b, upserts);
    MergedInbound(b.addresses, upserts);
    AllMergedKeys(b.addresses, upserts);
    var b' := UpsertedMany(b, upserts);
    assert forall a :: a in Addressed(upserts) ==> a in b'.addresses;
  }

  /** From exact inbound sums: they stay exact if and only if the operation sees every edge. */
  lemma InboundStep(size: nat, b: Book, op: Op)
    requires size > 0 && InboundExact(b)
    ensures InboundExact(Apply(size, b, op)) <==> SeesInbound(size, b, op)
  {
    hide HackStatsExact, Upsets, Positive, StatsFollow, EdgesUpserted, EdgesDeleted, TraceDeleted, Upserted,
         Recalculated, InboundRecalculated, SumEdges, PeaksExact, AnyIncoming, AnyCounted, GrandTotalExact, TotalsExact,
         InboundExact, ActiveExact, Covered, ActivityKept, NoDebt, BatchHarmless, UpsertedMany, RepairOverdraws,
         Nonnegative, InboundFollows, TotalsFollow, GrandTotalFollows, AllUnpaidOrKnown;
    match op
    case UpsertOne(data) => UpsertKeeps(b, data);
    case InsertIfMissing(data) => UpsertKeeps(b, data);
    case UpsertMany(upserts) => ManyInbound(b, upserts);
    case UpsertEdges(rows) => BatchKeeps(b, rows, size);
    case RecalcTotal(a) => RecalcKeeps(b, a);
    case RecalcInbound(a) => RecalcInboundKeeps(b, a);
    case DeleteTouching(a) => DeleteTouchingKeeps(b, a);
    case DeleteTrace => DeleteTraceKeeps(b);
  }

  ghost predicate InboundRun(size: nat, b: Book, ops: seq<Op>)
    requires size > 0
  {
    forall i :: 0 <= i < |ops| ==> SeesInbound(size, StateAt(size, b, ops, i), ops[i])
  }

  /** Inbound sums are the sums over the edges at every step, batches and deletions mixed at will. */
  lemma {:induction false} InboundHold(size: nat, b: Book, ops: seq<Op>, n: nat)
    requires size > 0 && InboundExact(b) && InboundRun(size, b, ops) && n <= |ops|
    ensures InboundExact(StateAt(size, b, ops, n))
  {
    hide InboundExact, SeesInbound, Apply;
    if n > 0 {
      InboundHold(size, b, ops, n - 1);
      assert SeesInbound(size, StateAt(size, b, ops, n - 1), ops[n - 1]);
      InboundStep(size, StateAt(size, b, ops, n - 1), ops[n - 1]);
    }
  }

  // ---- the grand total ----------------------------------------------------------------------

  /** Edge batches do not drift, and deletions take no incoming edge; all else is free. */
  ghost predicate CountsGrandTotal(size: nat, b: Book, op: Op)
    requires size > 0
  {
    match op
    case UpsertEdges(rows) => GrandTotalFollows(b.edges, rows, size)
    case DeleteTouching(a) => !AnyIncoming(b.edges, Gone(b.edges, a))
    case DeleteTrace => !AnyIncoming(b.edges, Traced(b.edges))
    case _ => true
  }

  lemma UpsertLeavesEdges(b: Book, data: Upsert)
    ensures var b' := Upserted(b, data);
            b'.edges == b.edges && b'.totalIn == b.totalIn && b'.peaks == b.peaks
  {
  }

  lemma GrandTotalStep(size: nat, b: Book, op: Op)
    requires size > 0 && GrandTotalExact(b)
    ensures var b' := Apply(size, b, op);
            && (CountsGrandTotal(size, b, op) ==> GrandTotalExact(b'))
            && (Positive(b.edges) ==> (GrandTotalExact(b') <==> CountsGrandTotal(size, b, op)))
  {
    hide HackStatsExact, Upsets, Positive, StatsFollow, EdgesUpserted, EdgesDeleted, TraceDeleted, Upserted,
         UpsertedMany, SumEdges, PeaksExact, AnyIncoming, AnyCounted, TotalsExact, InboundExact, ActiveExact, Covered,
         ActivityKept, NoDebt, BatchHarmless, RepairOverdraws, Nonnegative, InboundFollows, TotalsFollow,
         GrandTotalFollows;
    match op
    case UpsertOne(data) => UpsertLeavesEdges(b, data);
    case InsertIfMissing(data) => UpsertLeavesEdges(b, data);
    case UpsertMany(upserts) => UpsertManyKeeps(b, upserts);
    case UpsertEdges(rows) => BatchKeeps(b, rows, size);
    case RecalcTotal(a) =>
    case RecalcInbound(a) =>
    case DeleteTouching(a) => DeleteTouchingKeeps(b, a);
    case DeleteTrace => DeleteTraceKeeps(b);
  }

  ghost predicate GrandTotalRun(size: nat, b: Book, ops: seq<Op>)
    requires size > 0
  {
    forall i :: 0 <= i < |ops| ==> CountsGrandTotal(size, StateAt(size, b, ops, i), ops[i])
  }

  /** The grand total is the sum over the incoming edges at every step. */
  lemma {:induction false} GrandTotalHold(size: nat, b: Book, ops: seq<Op>, n: nat)
    requires size > 0 && GrandTotalExact(b) && GrandTotalRun(size, b, ops) && n <= |ops|
    ensures GrandTotalExact(StateAt(size, b, ops, n))
  {
    hide GrandTotalExact, CountsGrandTotal, Apply;
    if n > 0 {
      GrandTotalHold(size, b, ops, n - 1);
      assert CountsGrandTotal(size, StateAt(size, b, ops, n - 1), ops[n - 1]);
      GrandTotalStep(size, StateAt(size, b, ops, n - 1), ops[n - 1]);
    }
  }

  // ---- peaks --------------------------------------------------------------------------------

  ghost predicate Peaked(b: Book) {
    Positive(b.edges) && PeaksExact(b.edges, b.peaks)
  }

  /** In edge batches, each incoming row stays or is reached; deletions take no incoming edge. */
  ghost predicate CountsPeaks(size: nat, b: Book, op: Op)
    requires size > 0
  {
    match op
    case UpsertEdges(rows) => PositiveRows(rows) && PeaksFollow(b.edges, rows, size)
    case DeleteTouching(a) => !AnyIncoming(b.edges, Gone(b.edges, a))
    case DeleteTrace => !AnyIncoming(b.edges, Traced(b.edges))
    case _ => true
  }

  lemma PeaksStep(size: nat, b: Book, op: Op)
    requires size > 0 && Peaked(b) && CountsPeaks(size, b, op)
    ensures Peaked(Apply(size, b, op))
  {
    hide HackStatsExact, Upsets, Positive, StatsFollow, EdgesUpserted, EdgesDeleted, TraceDeleted, Upserted,
         UpsertedMany, SumEdges, PeaksExact, AnyIncoming, AnyCounted, TotalsExact, InboundExact, ActiveExact, Covered,
         ActivityKept, NoDebt, BatchHarmless, RepairOverdraws, Nonnegative, GrandTotalExact, PeaksFollow, PositiveRows;
    match op
    case UpsertOne(data) => UpsertLeavesEdges(b, data);
    case InsertIfMissing(data) => UpsertLeavesEdges(b, data);
    case UpsertMany(upserts) => UpsertManyKeeps(b, upserts);
    case UpsertEdges(rows) => BatchPeaks(b, rows, size);
    case RecalcTotal(a) =>
    case RecalcInbound(a) =>
    case DeleteTouching(a) => DeleteTouchingKeeps(b, a);
    case DeleteTrace => DeleteTraceKeeps(b);
  }

  ghost predicate PeaksRun(size: nat, b: Book, ops: seq<Op>)
    requires size > 0
  {
    forall i :: 0 <= i < |ops| ==> CountsPeaks(size, StateAt(size, b, ops, i), ops[i])
  }

  /** Each peak is the maximum of its pair, and every pair with an edge has one, at every step. */
  lemma {:induction false} PeaksHold(size: nat, b: Book, ops: seq<Op>, n: nat)
    requires size > 0 && Peaked(b) && PeaksRun(size, b, ops) && n <= |ops|
    ensures Peaked(StateAt(size, b, ops, n))
  {
    hide Peaked, CountsPeaks, Apply;
    if n > 0 {
      PeaksHold(size, b, ops, n - 1);
      assert CountsPeaks(size, StateAt(size, b, ops, n - 1), ops[n - 1]);
      PeaksStep(size, StateAt(size, b, ops, n - 1), ops[n - 1]);
    }
  }

  // ---- totals -------------------------------------------------------------------------------

  ghost predicate AllSummed(b: Book, upserts: seq<Upsert>) {
    forall a :: a in Addressed(upserts) ==> TotalAfter(b, upserts, a) == SumEdges(b.edges, InTo(a))
  }

  /** A total that is written is the sum over the edges; deletions take no edge that is counted. */
  ghost predicate CountsTotals(size: nat, b: Book, op: Op)
    requires size > 0
  {
    match op
    case UpsertOne(data) =>
      Merged(Row(b.addresses, data.address), data).total == SumEdges(b.edges, InTo(data.address))
    case InsertIfMissing(data) =>
      data.address in b.addresses || Or(data.total, 0) == SumEdges(b.edges, InTo(data.address))
    case UpsertMany(upserts) => AllSummed(b, upserts)
    case UpsertEdges(rows) => TotalsFollow(b, rows, size)
    case DeleteTouching(a) => !AnyCounted(b, Gone(b.edges, a))
    case DeleteTrace => !AnyCounted(b, Traced(b.edges))
    case _ => true
  }

  lemma ManySummed(b: Book, upserts: seq<Upsert>)
    requires TotalsExact(b)
    ensures TotalsExact(UpsertedMany(b, upserts)) <==> AllSummed(b, upserts)
  {
    hide SumEdges, UpsertedMany, PutAllMerged, Addressed, BatchHarmless, HackStatsExact, AboveZero, ActiveExact;
    UpsertManyKeeps(b, upserts);
    AllMergedKeys(b.addresses, upserts);
    var b' := UpsertedMany(b, upserts);
    forall a | a in Addressed(upserts)
      ensures a in b'.addresses && TotalAfter(b, upserts, a) == b'.addresses[a].total
    {
    }
    forall a | a in b'.addresses && a !in Addressed(upserts)
      ensures b'.addresses[a].total == SumEdges(b.edges, InTo(a))
    {
      NotAddressed(b.addresses, upserts, a);
    }
  }

  lemma TotalsStep(size: nat, b: Book, op: Op)
    requires size > 0 && TotalsExact(b)
    ensures var b' := Apply(size, b, op);
            && (CountsTotals(size, b, op) ==> TotalsExact(b'))
            && (Positive(b.edges) ==> (TotalsExact(b') <==> CountsTotals(size, b, op)))
  {
    hide HackStatsExact, Upsets, Positive, StatsFollow, EdgesUpserted, EdgesDeleted, TraceDeleted,
         UpsertedMany, SumEdges, PeaksExact, AnyIncoming, AnyCounted, TotalsExact, InboundExact, ActiveExact, Covered,
         ActivityKept, NoDebt, BatchHarmless, RepairOverdraws, Nonnegative, GrandTotalExact, InboundFollows,
         TotalsFollow, GrandTotalFollows, AllSummed, CountStep, SatsStep;
    match op
    case UpsertOne(data) => UpsertKeeps(b, data);
    case InsertIfMissing(data) => UpsertKeeps(b, data);
    case UpsertMany(upserts) => ManySummed(b, upserts);
    case UpsertEdges(rows) => BatchKeeps(b, rows, size);
    case RecalcTotal(a) => RecalcKeeps(b, a);
    case RecalcInbound(a) => RecalcInboundKeeps(b, a);
    case DeleteTouching(a) => DeleteTouchingKeeps(b, a);
    case DeleteTrace => DeleteTraceKeeps(b);
  }

  ghost predicate TotalsRun(size: nat, b: Book, ops: seq<Op>)
    requires size > 0
  {
    forall i :: 0 <= i < |ops| ==> CountsTotals(size, StateAt(size, b, ops, i), ops[i])
  }

  /** Each total is the sum over its incoming edges at every step. */
  lemma {:induction false} TotalsHold(size: nat, b: Book, ops: seq<Op>, n: nat)
    requires size > 0 && TotalsExact(b) && TotalsRun(size, b, ops) && n <= |ops|
    ensures TotalsExact(StateAt(size, b, ops, n))
  {
    hide TotalsExact, CountsTotals, Apply;
    if n > 0 {
      TotalsHold(size, b, ops, n - 1);
      assert CountsTotals(size, StateAt(size, b, ops, n - 1), ops[n - 1]);
      TotalsStep(size, StateAt(size, b, ops, n - 1), ops[n - 1]);
    }
  }
}
