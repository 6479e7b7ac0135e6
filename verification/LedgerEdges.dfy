/** What edge batches, recalculations and deletions keep exact, and when they do not. */
module LedgerEdges {
  import opened LedgerTable
  import opened HackStats
  import opened EdgeBatch
  import opened LedgerBook
  import opened LedgerSteps

  // ---- collected deltas ---------------------------------------------------------------------

  predicate DistinctNames(d: Deltas) {
    forall i, j :: 0 <= i < j < |d| ==> d[i].0 != d[j].0
  }

  lemma {:induction false} BumpNames(d: Deltas, a: string, x: int)
    ensures forall p :: p in Bump(d, a, x) ==> p.0 == a || exists q :: q in d && q.0 == p.0
  {
    if d != [] && d[0].0 != a {
      BumpNames(d[1..], a, x);
      forall p | p in Bump(d, a, x) ensures p.0 == a || exists q :: q in d && q.0 == p.0 {
        if p != d[0] && p.0 != a {
          var q :| q in d[1..] && q.0 == p.0;
          assert q in d;
        } else if p == d[0] {
          assert d[0] in d;
        }
      }
    } else if d != [] {
      forall p | p in Bump(d, a, x) ensures p.0 == a || exists q :: q in d && q.0 == p.0 {
        if p.0 != a {
          assert p in d[1..] && p in d;
        }
      }
    }
  }

  lemma {:induction false} BumpDistinct(d: Deltas, a: string, x: int)
    requires DistinctNames(d)
    ensures DistinctNames(Bump(d, a, x))
  {
    if d != [] && d[0].0 != a {
      BumpDistinct(d[1..], a, x);
      BumpNames(d[1..], a, x);
      var rest := Bump(d[1..], a, x);
      forall j | 0 <= j < |rest| ensures rest[j].0 != d[0].0 {
        assert rest[j] in rest;
        if rest[j].0 != a {
          var q :| q in d[1..] && q.0 == rest[j].0;
        }
      }
    }
  }

  lemma {:induction false} BumpOf(d: Deltas, a: string, x: int, other: string)
    ensures DeltaOf(Bump(d, a, x), other) == DeltaOf(d, other) + if other == a then x else 0
  {
    if d != [] && d[0].0 != a {
      BumpOf(d[1..], a, x, other);
    }
  }

  lemma {:induction false} CollectedDistinct(rows: seq<EdgeRow>, seen: Edges, direction: Direction)
    ensures DistinctNames(Collected(rows, seen, direction))
  {
    if rows != [] {
      var front, row := Collected(rows[..|rows| - 1], seen, direction), rows[|rows| - 1];
      CollectedDistinct(rows[..|rows| - 1], seen, direction);
      BumpDistinct(front, row.key.to, row.edge.amount - OldAmount(seen, row.key));
    }
  }

  /**
   * The deltas collected from a chunk are the changes of the sums over the table, but for the
   * drift: for any rows, and any amounts read before.
   */
  lemma {:induction false} CollectedDrift(before: Edges, rows: seq<EdgeRow>, seen: Edges, a: string)
    ensures var after := WriteAll(before, rows);
            && DeltaOf(Collected(rows, seen, InToHacker), a)
               == SumEdges(after, InTo(a)) - SumEdges(before, InTo(a)) + Drift(before, rows, seen, InTo(a))
            && DeltaOf(Collected(rows, seen, OutFromHacker), a)
               == SumEdges(after, OutTo(a)) - SumEdges(before, OutTo(a)) + Drift(before, rows, seen, OutTo(a))
            && InTotal(rows, seen)
               == SumEdges(after, AllIn) - SumEdges(before, AllIn) + Drift(before, rows, seen, AllIn)
  {
    hide SumEdges, OldWeight, Bump, OldAmount;
    if rows != [] {
      var front, row := rows[..|rows| - 1], rows[|rows| - 1];
      CollectedDrift(before, front, seen, a);
      forall m { SumPut(WriteAll(before, front), row.key, row.edge, m); }
      var delta := row.edge.amount - OldAmount(seen, row.key);
      BumpOf(Collected(front, seen, InToHacker), row.key.to, delta, a);
      BumpOf(Collected(front, seen, OutFromHacker), row.key.to, delta, a);
    } else {
      DeltaOfNone(a);
    }
  }

  // ---- deltas applied -----------------------------------------------------------------------

  lemma {:induction false} DeltaOfLast(d: Deltas, a: string)
    requires DistinctNames(d) && d != []
    ensures var front, last := d[..|d| - 1], d[|d| - 1];
            DistinctNames(front) && DeltaOf(front, last.0) == 0
            && DeltaOf(d, a) == if a == last.0 then last.1 else DeltaOf(front, a)
  {
    var front := d[..|d| - 1];
    if |d| > 1 {
      assert d[1..][..|d| - 2] == front[1..];
      DeltaOfLast(d[1..], a);
    }
  }

  lemma FrontDistinct(d: Deltas)
    requires DistinctNames(d) && d != []
    ensures DistinctNames(d[..|d| - 1])
  {
  }

  lemma {:induction false} TotalsMovedRows(b: Book, d: Deltas)
    requires DistinctNames(d)
    ensures var b' := TotalsMoved(b, d);
            && b'.addresses.Keys == b.addresses.Keys && b'.edges == b.edges && b'.totalIn == b.totalIn
            && b'.peaks == b.peaks
            && forall a :: a in b.addresses ==>
                 b'.addresses[a] == b.addresses[a].(total := b.addresses[a].total + DeltaOf(d, a))
  {
    hide DistinctNames, TotalCountStep, TotalSatsStep, DeltaOf;
    if d != [] {
      FrontDistinct(d);
      forall a { DeltaOfLast(d, a); }
      TotalsMovedRows(b, d[..|d| - 1]);
    } else {
      forall a { DeltaOfNone(a); }
    }
  }

  lemma DeltaOfNone(a: string)
    ensures DeltaOf([], a) == 0
  {
  }

  lemma {:induction false} InboundsMovedRows(addresses: Addresses, d: Deltas)
    requires DistinctNames(d)
    ensures var after := InboundsMoved(addresses, d);
            && after.Keys == addresses.Keys
            && forall a :: a in addresses ==> after[a] == addresses[a].(inbound := addresses[a].inbound + DeltaOf(d, a))
  {
    hide DistinctNames, DeltaOf;
    if d != [] {
      FrontDistinct(d);
      forall a { DeltaOfLast(d, a); }
      InboundsMovedRows(addresses, d[..|d| - 1]);
    } else {
      forall a { DeltaOfNone(a); }
    }
  }

  /** The counts are exact, and no sats of a hack are below the recount. */
  ghost predicate NotShort(b: Book) {
    NoLess(b.addresses, b.hackerCount, b.totalInByHack)
  }

  lemma ExactNotShort(b: Book)
    requires HackStatsExact(b) && AboveZero(b)
    ensures NotShort(b)
  {
    ExactIsNoLess(b.addresses, b.hackerCount, b.totalInByHack);
  }

  ghost predicate Overdrawn(b: Book, a: string, delta: int) {
    a in b.addresses && Overdraws(b.addresses[a], b.addresses[a].total + delta, b.totalInByHack)
  }

  /** One delta of a total leaves the hack statistics exact unless it overdraws its hack's figure. */
  lemma TotalMovedKeeps(b: Book, a: string, delta: int)
    ensures var b' := TotalMoved(b, a, delta);
            && (ActiveExact(b) ==> ActiveExact(b'))
            && (NotShort(b) ==>
                  NotShort(b') && (HackStatsExact(b') <==> HackStatsExact(b) && !Overdrawn(b, a, delta)))
  {
    hide SumAddresses, StatsExact, TotalCountStep, TotalSatsStep, NoLess;
    if a in b.addresses {
      var before := b.addresses[a];
      if ActiveExact(b) {
        ActiveStep(b.addresses, a, before.(total := before.total + delta), b.hackerActive);
      }
      if NotShort(b) {
        FiguresAboveZero(b);
        assert Figure(b.totalInByHack, before.hackId) >= 0;
        TotalStepNoLess(b.addresses, a, before.total + delta, b.hackerCount, b.totalInByHack);
        TotalStepExact(b.addresses, a, before.total + delta, b.hackerCount, b.totalInByHack);
      }
    }
  }

  lemma FiguresAboveZero(b: Book)
    requires NotShort(b)
    ensures AboveZero(b)
  {
  }

  /** What deltas of totals add to the sats of a hack. */
  function HackDelta(addresses: Addresses, d: Deltas, h: string): int {
    if d == [] then 0
    else
      var last := d[|d| - 1];
      HackDelta(addresses, d[..|d| - 1], h)
      + if last.0 in addresses && addresses[last.0].flagged && addresses[last.0].hackId == h then last.1 else 0
  }

  /** Adding up the deltas one by one, the sats of no hack ever fall below zero. */
  ghost predicate NeverBelow(addresses: Addresses, f: Figures, d: Deltas) {
    forall n: nat, h :: n <= |d| ==> Figure(f, h) + HackDelta(addresses, d[..n], h) >= 0
  }

  lemma NeverBelowNext(addresses: Addresses, f: Figures, d: Deltas)
    requires d != []
    ensures NeverBelow(addresses, f, d)
            <==> NeverBelow(addresses, f, d[..|d| - 1]) && forall h :: Figure(f, h) + HackDelta(addresses, d, h) >= 0
  {
    hide HackDelta, Figure;
    var front := d[..|d| - 1];
    assert d[..|d|] == d && forall n: nat :: n < |d| ==> d[..n] == front[..n];
  }

  /** Whose sats a total belongs to does not change with the totals. */
  lemma {:induction false} SameOwners(b: Book, d: Deltas)
    ensures var b' := TotalsMoved(b, d);
            && b'.addresses.Keys == b.addresses.Keys
            && forall a :: a in b.addresses ==>
                 b'.addresses[a].flagged == b.addresses[a].flagged && b'.addresses[a].hackId == b.addresses[a].hackId
  {
    hide TotalCountStep, TotalSatsStep;
    if d != [] {
      SameOwners(b, d[..|d| - 1]);
    }
  }

  ghost predicate FiguresMoved(b: Book, b': Book, d: Deltas) {
    forall h :: Figure(b'.totalInByHack, h) == Figure(b.totalInByHack, h) + HackDelta(b.addresses, d, h)
  }

  /** One more delta overdraws its hack if and only if the sum of all deltas does. */
  lemma LastOverdraws(b: Book, d: Deltas)
    requires d != [] && NeverBelow(b.addresses, b.totalInByHack, d[..|d| - 1])
    requires FiguresMoved(b, TotalsMoved(b, d[..|d| - 1]), d[..|d| - 1])
    ensures var b1, last := TotalsMoved(b, d[..|d| - 1]), d[|d| - 1];
            && (Overdrawn(b1, last.0, last.1) <==> !NeverBelow(b.addresses, b.totalInByHack, d))
            && (NeverBelow(b.addresses, b.totalInByHack, d) ==> FiguresMoved(b, TotalsMoved(b, d), d))
  {
    hide TotalsMoved, TotalCountStep, IsActive, HackerActive, NeverBelow;
    var front, last := d[..|d| - 1], d[|d| - 1];
    var b1 := TotalsMoved(b, front);
    SameOwners(b, front);
    NeverBelowNext(b.addresses, b.totalInByHack, d);
    AllNeverBelow(b.addresses, b.totalInByHack, front);
    assert TotalsMoved(b, d) == TotalMoved(b1, last.0, last.1) by { LastMoved(b, d); }
    if last.0 in b.addresses && b.addresses[last.0].flagged {
      var h := b.addresses[last.0].hackId;
      assert Figure(b1.totalInByHack, h) + last.1 == Figure(b.totalInByHack, h) + HackDelta(b.addresses, d, h);
    }
  }

  lemma LastMoved(b: Book, d: Deltas)
    requires d != []
    ensures TotalsMoved(b, d) == TotalMoved(TotalsMoved(b, d[..|d| - 1]), d[|d| - 1].0, d[|d| - 1].1)
  {
  }

  lemma AllNeverBelow(addresses: Addresses, f: Figures, d: Deltas)
    requires NeverBelow(addresses, f, d)
    ensures forall h :: Figure(f, h) + HackDelta(addresses, d, h) >= 0
  {
    assert d[..|d|] == d;
  }

  /** Deltas one after the other keep the hack statistics if and only if they never take them below zero. */
  lemma {:induction false} TotalsMovedKeep(b: Book, d: Deltas)
    ensures var b' := TotalsMoved(b, d);
            && (ActiveExact(b) ==> ActiveExact(b'))
            && (NotShort(b) ==>
                  && NotShort(b')
                  && (HackStatsExact(b') <==> HackStatsExact(b) && NeverBelow(b.addresses, b.totalInByHack, d))
                  && (NeverBelow(b.addresses, b.totalInByHack, d) ==> FiguresMoved(b, b', d)))
  {
    hide TotalMoved, HackStatsExact, ActiveExact, Overdrawn, NotShort, FiguresMoved, NeverBelow;
    if d != [] {
      var front, last := d[..|d| - 1], d[|d| - 1];
      TotalsMovedKeep(b, front);
      TotalMovedKeeps(TotalsMoved(b, front), last.0, last.1);
      NeverBelowNext(b.addresses, b.totalInByHack, d);
      if NotShort(b) && NeverBelow(b.addresses, b.totalInByHack, front) {
        LastOverdraws(b, d);
      }
    } else if NotShort(b) {
      NothingMoved(b);
    }
  }

  lemma NothingMoved(b: Book)
    requires NotShort(b)
    ensures NeverBelow(b.addresses, b.totalInByHack, []) && FiguresMoved(b, b, [])
  {
    FiguresAboveZero(b);
    assert forall h :: Figure(b.totalInByHack, h) >= 0;
  }

  lemma StatsParts(b: Book)
    requires HackStatsExact(b)
    ensures CountExact(b.addresses, b.hackerCount) && SatsExact(b.addresses, b.totalInByHack)
  {
    hide SumAddresses;
  }

  /** Without negative totals, no figure is. */
  lemma NoDebtAbove(b: Book)
    requires HackStatsExact(b) && NoDebt(b.addresses)
    ensures AboveZero(b)
  {
    hide SumAddresses;
    StatsParts(b);
    forall h ensures Figure(b.totalInByHack, h) >= 0 {
      AddressShare(b.addresses, Sats(h));
    }
  }

  /** Deltas that leave no negative total never take a figure below zero. */
  lemma {:induction false} SolventDeltas(b: Book, d: Deltas)
    requires DistinctNames(d) && HackStatsExact(b) && NoDebt(b.addresses) && NoDebt(TotalsMoved(b, d).addresses)
    ensures HackStatsExact(TotalsMoved(b, d)) && NeverBelow(b.addresses, b.totalInByHack, d)
  {
    hide DistinctNames, TotalMoved, HackStatsExact, DeltaOf, NotShort, NeverBelow, FiguresMoved;
    NoDebtAbove(b);
    ExactNotShort(b);
    TotalsMovedKeep(b, d);
    if d != [] {
      var front, last := d[..|d| - 1], d[|d| - 1];
      var b1, b' := TotalsMoved(b, front), TotalsMoved(b, d);
      FrontDistinct(d);
      forall a { DeltaOfLast(d, a); }
      TotalsMovedRows(b, front);
      TotalsMovedRows(b, d);
      SolventDeltas(b, front);
      TotalsMovedKeep(b, front);
      TotalMovedKeeps(b1, last.0, last.1);
      if last.0 in b1.addresses {
        assert b'.addresses[last.0].total == b1.addresses[last.0].total + last.1;
        StatsParts(b1);
        NoOverdraft(b1.addresses, last.0, b'.addresses[last.0].total, b1.totalInByHack);
      }
    }
  }

  // ---- one chunk ----------------------------------------------------------------------------

  /** By how much a sum kept by the deltas of a chunk leaves the sum over the edges behind. */
  function ChunkDrift(edges: Edges, rows: seq<EdgeRow>, m: EdgeSum): int {
    Drift(edges, rows, OldEdges(edges, rows), m)
  }

  /** Every row keeps its identity; what a sum has beyond the edges grows by the drift alone. */
  ghost predicate ExcessGrows(b: Book, b': Book, drift: EdgeSum -> int) {
    && b'.addresses.Keys == b.addresses.Keys
    && forall a :: a in b.addresses ==>
         && b'.addresses[a].total - SumEdges(b'.edges, InTo(a))
            == b.addresses[a].total - SumEdges(b.edges, InTo(a)) + drift(InTo(a))
         && b'.addresses[a].inbound - SumEdges(b'.edges, OutTo(a))
            == b.addresses[a].inbound - SumEdges(b.edges, OutTo(a)) + drift(OutTo(a))
  }

  lemma InboundIrrelevant(a: Addresses, a': Addresses, m: AddressSum)
    requires a.Keys == a'.Keys && forall x :: x in a ==> a'[x] == a[x].(inbound := a'[x].inbound)
    ensures SumAddresses(a', m) == SumAddresses(a, m)
  {
    assert AddressWeights(a', m) == AddressWeights(a, m);
  }

  /** Inbound sums take no part in the hack statistics or the count of active hackers. */
  lemma InboundLeavesStats(b: Book, b': Book)
    requires b'.addresses.Keys == b.addresses.Keys
    requires forall x :: x in b.addresses ==> b'.addresses[x] == b.addresses[x].(inbound := b'.addresses[x].inbound)
    requires b'.hackerCount == b.hackerCount && b'.totalInByHack == b.totalInByHack && b'.hackerActive == b.hackerActive
    ensures HackStatsExact(b') <==> HackStatsExact(b)
    ensures NotShort(b') <==> NotShort(b)
    ensures ActiveExact(b') <==> ActiveExact(b)
    ensures NoDebt(b'.addresses) <==> NoDebt(b.addresses)
  {
    hide SumAddresses;
    forall m ensures SumAddresses(b'.addresses, m) == SumAddresses(b.addresses, m) {
      InboundIrrelevant(b.addresses, b'.addresses, m);
    }
    assert forall x :: x in b.addresses <==> x in b'.addresses;
  }

  lemma OldAmounts(before: Edges, rows: seq<EdgeRow>, i: nat)
    requires Stable(before, rows) && i < |rows|
    ensures IsIn(rows[i]) ==> OldAmount(OldEdges(before, rows), rows[i].key) == OldAmount(before, rows[i].key)
  {
    hide OldEdges;
    if IsIn(rows[i]) {
      OldEdgeFound(before, rows, i);
    }
  }

  lemma PeaksMovedNext(before: Edges, rows: seq<EdgeRow>, peaks: Peaks, n: nat)
    requires Stable(before, rows) && n < |rows|
    ensures var after, seen := WriteAll(before, rows), OldEdges(before, rows);
            PeaksMoved(after, peaks, rows[..n + 1], seen)
            == PeaksNow(after, PeaksMoved(after, peaks, rows[..n], seen), rows[n], OldAmount(before, rows[n].key))
  {
    hide WriteAll, OldEdges, PeakMoved, Stable, OldAmount;
    assert rows[..n + 1][..n] == rows[..n] && rows[..n + 1][n] == rows[n];
    OldAmounts(before, rows, n);
  }

  lemma {:induction false} PeaksMovedAfter(before: Edges, rows: seq<EdgeRow>, peaks: Peaks, n: nat)
    requires Stable(before, rows) && PositiveRows(rows) && Positive(before) && n <= |rows|
    requires PeaksExact(before, peaks)
    ensures var after := WriteAll(before, rows);
            && (AllReached(after, rows) ==>
                  PeaksAfter(before, after, rows, n, PeaksMoved(after, peaks, rows[..n], OldEdges(before, rows))))
            && (NoneLowered(before, rows) ==>
                  Raised(rows, n, PeaksMoved(after, peaks, rows[..n], OldEdges(before, rows))))
  {
    hide PeaksExact, PeaksAfter, WriteAll, OldEdges, PeaksNow, Positive, Stable, PositiveRows, AllReached, NoneLowered;
    var after, seen := WriteAll(before, rows), OldEdges(before, rows);
    if n == 0 {
      PeaksStart(before, rows, peaks);
    } else {
      var was := PeaksMoved(after, peaks, rows[..n - 1], seen);
      PeaksMovedAfter(before, rows, peaks, n - 1);
      PeaksMovedNext(before, rows, peaks, n - 1);
      WriteAllPositive(before, rows);
      if AllReached(after, rows) {
        PeaksNext(before, after, rows, n - 1, was);
      }
      if NoneLowered(before, rows) {
        RaisedNext(before, after, rows, n - 1, was);
      }
    }
  }

  /**
   * Although all edges of the chunk are written first, the peaks end up exact when an edge reaches
   * each incoming row; and only then, unless a row lowers an amount and a peak is looked up again.
   */
  lemma PeaksMovedExact(before: Edges, rows: seq<EdgeRow>, peaks: Peaks)
    requires Stable(before, rows) && PositiveRows(rows) && Positive(before) && PeaksExact(before, peaks)
    ensures var after := WriteAll(before, rows);
            var peaks' := PeaksMoved(after, peaks, rows, OldEdges(before, rows));
            && (AllReached(after, rows) ==> PeaksExact(after, peaks'))
            && (NoneLowered(before, rows) ==> (PeaksExact(after, peaks') <==> AllReached(after, rows)))
  {
    hide PeaksExact, PeaksAfter, WriteAll, OldEdges, PeaksMoved, Positive, Stable, PositiveRows, AllReached,
         NoneLowered, Raised;
    var after := WriteAll(before, rows);
    var peaks' := PeaksMoved(after, peaks, rows, OldEdges(before, rows));
    PeaksMovedAfter(before, rows, peaks, |rows|);
    assert rows[..|rows|] == rows;
    if AllReached(after, rows) {
      PeaksEnd(before, after, rows, peaks');
    }
    if NoneLowered(before, rows) && PeaksExact(after, peaks') {
      RaisedReached(after, rows, peaks');
    }
  }

  /** The rows after a chunk: each sum has moved by what the edges moved, and by the drift. */
  lemma ChunkRows(b: Book, rows: seq<EdgeRow>)
    ensures var b' := ChunkUpserted(b, rows);
            && b'.edges == WriteAll(b.edges, rows) && b'.totalIn == b.totalIn
            && ExcessGrows(b, b', m => ChunkDrift(b.edges, rows, m))
            && InTotal(rows, OldEdges(b.edges, rows))
               == SumEdges(b'.edges, AllIn) - SumEdges(b.edges, AllIn) + ChunkDrift(b.edges, rows, AllIn)
  {
    hide OldEdges, SumEdges, WriteAll, Collected, TotalsMoved, InboundsMoved, PeaksMoved, Drift, DeltaOf, InTotal;
    var seen := OldEdges(b.edges, rows);
    var ins, outs := Collected(rows, seen, InToHacker), Collected(rows, seen, OutFromHacker);
    CollectedDistinct(rows, seen, InToHacker);
    CollectedDistinct(rows, seen, OutFromHacker);
    var b1 := TotalsMoved(b.(edges := WriteAll(b.edges, rows)), ins);
    TotalsMovedRows(b.(edges := WriteAll(b.edges, rows)), ins);
    InboundsMovedRows(b1.addresses, outs);
    forall a { CollectedDrift(b.edges, rows, seen, a); }
    CollectedDrift(b.edges, rows, seen, "");
  }

  /** The deltas by which a chunk moves totals. */
  function TotalDeltas(edges: Edges, rows: seq<EdgeRow>): Deltas {
    Collected(rows, OldEdges(edges, rows), InToHacker)
  }

  /** One chunk: the active count always, the statistics if no delta takes them below zero. */
  lemma ChunkKeeps(b: Book, rows: seq<EdgeRow>)
    ensures var b' := ChunkUpserted(b, rows);
            && (ActiveExact(b) ==> ActiveExact(b'))
            && (NotShort(b) ==>
                  && NotShort(b')
                  && (HackStatsExact(b') <==>
                        HackStatsExact(b) && NeverBelow(b.addresses, b.totalInByHack, TotalDeltas(b.edges, rows))))
            && (HackStatsExact(b) && NoDebt(b.addresses) && NoDebt(b'.addresses) ==>
                  NeverBelow(b.addresses, b.totalInByHack, TotalDeltas(b.edges, rows)))
  {
    hide OldEdges, WriteAll, Collected, TotalsMoved, InboundsMoved, PeaksMoved, ActiveExact, HackStatsExact, NoDebt,
         NeverBelow, NotShort, FiguresMoved;
    var seen := OldEdges(b.edges, rows);
    var ins, outs := Collected(rows, seen, InToHacker), Collected(rows, seen, OutFromHacker);
    CollectedDistinct(rows, seen, InToHacker);
    CollectedDistinct(rows, seen, OutFromHacker);
    var b0 := b.(edges := WriteAll(b.edges, rows));
    EdgesLeaveStats(b, b0);
    var b1 := TotalsMoved(b0, ins);
    TotalsMovedKeep(b0, ins);
    InboundsMovedRows(b1.addresses, outs);
    InboundLeavesStats(b1, ChunkUpserted(b, rows));
    if HackStatsExact(b) && NoDebt(b.addresses) && NoDebt(b1.addresses) {
      SolventDeltas(b0, ins);
    }
  }

  lemma EdgesLeaveStats(b: Book, b': Book)
    requires b' == b.(edges := b'.edges)
    ensures HackStatsExact(b') <==> HackStatsExact(b)
    ensures NotShort(b') <==> NotShort(b)
    ensures ActiveExact(b') <==> ActiveExact(b)
  {
  }

  lemma ChunkPeaks(b: Book, rows: seq<EdgeRow>)
    requires Stable(b.edges, rows) && PositiveRows(rows) && Positive(b.edges) && PeaksExact(b.edges, b.peaks)
    ensures var b' := ChunkUpserted(b, rows);
            && (AllReached(b'.edges, rows) ==> PeaksExact(b'.edges, b'.peaks))
            && (NoneLowered(b.edges, rows) ==> (PeaksExact(b'.edges, b'.peaks) <==> AllReached(b'.edges, rows)))
  {
    hide WriteAll, OldEdges, PeaksExact, PeaksMoved, InboundsMoved, Collected, DistinctNames, DeltaOf, Stable,
         PositiveRows, Positive, AllReached, NoneLowered;
    var ins := Collected(rows, OldEdges(b.edges, rows), InToHacker);
    CollectedDistinct(rows, OldEdges(b.edges, rows), InToHacker);
    TotalsMovedRows(b.(edges := WriteAll(b.edges, rows)), ins);
    PeaksMovedExact(b.edges, rows, b.peaks);
  }

  // ---- whole batches ------------------------------------------------------------------------

  /** The drifts of the chunks, each against the table the last one left. */
  function BatchDrift(edges: Edges, rows: seq<EdgeRow>, size: nat, m: EdgeSum): int
    requires size > 0
    decreases |rows|
  {
    if rows == [] then 0
    else
      var n := Chunk(rows, size);
      ChunkDrift(edges, rows[..n], m) + BatchDrift(WriteAll(edges, rows[..n]), rows[n..], size, m)
  }

  lemma {:induction false} WriteAllConcat(edges: Edges, a: seq<EdgeRow>, b: seq<EdgeRow>)
    ensures WriteAll(edges, a + b) == WriteAll(WriteAll(edges, a), b)
  {
    if b == [] {
      assert a + b == a;
    } else {
      WriteAllConcat(edges, a, b[..|b| - 1]);
      assert (a + b)[..|a + b| - 1] == a + b[..|b| - 1];
    }
  }

  lemma ChunksWritten(edges: Edges, rows: seq<EdgeRow>, n: nat)
    requires n <= |rows|
    ensures WriteAll(edges, rows) == WriteAll(WriteAll(edges, rows[..n]), rows[n..])
    ensures PositiveRows(rows) ==> PositiveRows(rows[..n]) && PositiveRows(rows[n..])
  {
    hide WriteAll;
    WriteAllConcat(edges, rows[..n], rows[n..]);
    assert rows[..n] + rows[n..] == rows;
  }

  lemma ExcessAdds(b0: Book, b1: Book, b2: Book, d: EdgeSum -> int, d1: EdgeSum -> int, d2: EdgeSum -> int)
    requires ExcessGrows(b0, b1, d1) && ExcessGrows(b1, b2, d2) && forall m :: d(m) == d1(m) + d2(m)
    ensures ExcessGrows(b0, b2, d)
  {
    hide SumEdges;
  }

  lemma {:induction false} ChunksKeep(b: Book, rows: seq<EdgeRow>, size: nat)
    requires size > 0
    ensures var b' := ChunksUpserted(b, rows, size);
            && b'.edges == WriteAll(b.edges, rows) && b'.totalIn == b.totalIn
            && ExcessGrows(b, b', m => BatchDrift(b.edges, rows, size, m))
            && InTotals(b.edges, rows, size)
               == SumEdges(b'.edges, AllIn) - SumEdges(b.edges, AllIn) + BatchDrift(b.edges, rows, size, AllIn)
    decreases |rows|
  {
    hide SumEdges, ChunkUpserted, ExcessGrows, WriteAll, OldEdges, InTotal, ChunkDrift;
    if rows == [] {
      NothingWritten(b, m => BatchDrift(b.edges, rows, size, m));
    } else {
      var n := Chunk(rows, size);
      var b1 := ChunkUpserted(b, rows[..n]);
      ChunksWritten(b.edges, rows, n);
      ChunkRows(b, rows[..n]);
      ChunksKeep(b1, rows[n..], size);
      ExcessAdds(b, b1, ChunksUpserted(b, rows, size), m => BatchDrift(b.edges, rows, size, m),
                 m => ChunkDrift(b.edges, rows[..n], m), m => BatchDrift(b1.edges, rows[n..], size, m));
    }
  }

  lemma NothingWritten(b: Book, drift: EdgeSum -> int)
    requires forall m :: drift(m) == 0
    ensures WriteAll(b.edges, []) == b.edges && ExcessGrows(b, b, drift)
  {
    hide SumEdges;
  }

  /** No delta of the batch, when its turn comes, takes the sats of a hack below zero. */
  ghost predicate StatsFollow(b: Book, rows: seq<EdgeRow>, size: nat)
    requires size > 0
    decreases |rows|
  {
    rows == [] ||
    (var n := Chunk(rows, size);
     && NeverBelow(b.addresses, b.totalInByHack, TotalDeltas(b.edges, rows[..n]))
     && StatsFollow(ChunkUpserted(b, rows[..n]), rows[n..], size))
  }

  lemma {:induction false} ChunksStats(b: Book, rows: seq<EdgeRow>, size: nat)
    requires size > 0
    ensures var b' := ChunksUpserted(b, rows, size);
            && (ActiveExact(b) ==> ActiveExact(b'))
            && (NotShort(b) ==>
                  NotShort(b') && (HackStatsExact(b') <==> HackStatsExact(b) && StatsFollow(b, rows, size)))
    decreases |rows|
  {
    hide ChunkUpserted, ActiveExact, HackStatsExact, NotShort, NeverBelow, TotalDeltas;
    if rows != [] {
      var n := Chunk(rows, size);
      ChunkKeeps(b, rows[..n]);
      ChunksStats(ChunkUpserted(b, rows[..n]), rows[n..], size);
    }
  }

  /** Chunk by chunk, no direction in the table is turned, and an edge reaches each incoming row. */
  ghost predicate PeaksFollow(edges: Edges, rows: seq<EdgeRow>, size: nat)
    requires size > 0
    decreases |rows|
  {
    rows == [] ||
    (var n := Chunk(rows, size);
     var after := WriteAll(edges, rows[..n]);
     Stable(edges, rows[..n]) && AllReached(after, rows[..n]) && PeaksFollow(after, rows[n..], size))
  }

  lemma {:induction false} ChunksPeaks(b: Book, rows: seq<EdgeRow>, size: nat)
    requires size > 0 && PositiveRows(rows) && Positive(b.edges) && PeaksExact(b.edges, b.peaks)
    requires PeaksFollow(b.edges, rows, size)
    ensures PeaksExact(ChunksUpserted(b, rows, size).edges, ChunksUpserted(b, rows, size).peaks)
    decreases |rows|
  {
    hide ExcessGrows, WriteAll, OldEdges, InTotal, Stable, PositiveRows, PeaksExact, Positive, ChunkUpserted,
         AllReached, NoneLowered;
    if rows != [] {
      var n := Chunk(rows, size);
      ChunksWritten(b.edges, rows, n);
      ChunkRows(b, rows[..n]);
      WriteAllPositive(b.edges, rows[..n]);
      ChunkPeaks(b, rows[..n]);
      ChunksPeaks(ChunkUpserted(b, rows[..n]), rows[n..], size);
    }
  }

  ghost predicate TotalsFollow(b: Book, rows: seq<EdgeRow>, size: nat)
    requires size > 0
  {
    forall a :: a in b.addresses ==> BatchDrift(b.edges, rows, size, InTo(a)) == 0
  }

  ghost predicate InboundFollows(b: Book, rows: seq<EdgeRow>, size: nat)
    requires size > 0
  {
    forall a :: a in b.addresses ==> BatchDrift(b.edges, rows, size, OutTo(a)) == 0
  }

  /** Either nothing drifts, or all is held at zero where it belongs. */
  ghost predicate GrandTotalFollows(edges: Edges, rows: seq<EdgeRow>, size: nat)
    requires size > 0
  {
    var total, drift := SumEdges(WriteAll(edges, rows), AllIn), BatchDrift(edges, rows, size, AllIn);
    total >= 0 && (drift == 0 || (total == 0 && drift < 0))
  }

  /** A batch of edges, any batch: each figure by itself. */
  lemma BatchKeeps(b: Book, rows: seq<EdgeRow>, size: nat)
    requires size > 0
    ensures var b' := EdgesUpserted(b, rows, size);
            && b'.edges == WriteAll(b.edges, rows)
            && (TotalsExact(b) ==> (TotalsExact(b') <==> TotalsFollow(b, rows, size)))
            && (InboundExact(b) ==> (InboundExact(b') <==> InboundFollows(b, rows, size)))
            && (GrandTotalExact(b) ==> (GrandTotalExact(b') <==> GrandTotalFollows(b.edges, rows, size)))
  {
    hide SumEdges, ChunksUpserted, WriteAll, InTotals, BatchDrift;
    var b1, b' := ChunksUpserted(b, rows, size), EdgesUpserted(b, rows, size);
    ChunksKeep(b, rows, size);
    assert forall a :: a in b.addresses <==> a in b'.addresses;
  }

  /** The statistics and the active count after any batch. */
  lemma BatchStats(b: Book, rows: seq<EdgeRow>, size: nat)
    requires size > 0
    ensures var b' := EdgesUpserted(b, rows, size);
            && (ActiveExact(b) ==> ActiveExact(b'))
            && (HackStatsExact(b) && AboveZero(b) ==>
                  AboveZero(b') && (HackStatsExact(b') <==> StatsFollow(b, rows, size)))
  {
    hide ChunksUpserted, ActiveExact, HackStatsExact, NotShort, StatsFollow, InTotals;
    var b1, b' := ChunksUpserted(b, rows, size), EdgesUpserted(b, rows, size);
    ChunksStats(b, rows, size);
    TotalInLeaves(b1, b');
    if HackStatsExact(b) && AboveZero(b) {
      ExactNotShort(b);
      FiguresAboveZero(b1);
    }
  }

  lemma TotalInLeaves(b: Book, b': Book)
    requires b' == b.(totalIn := b'.totalIn)
    ensures (HackStatsExact(b') <==> HackStatsExact(b)) && (ActiveExact(b') <==> ActiveExact(b))
  {
  }

  /** The peaks after a batch of positive amounts. */
  lemma BatchPeaks(b: Book, rows: seq<EdgeRow>, size: nat)
    requires size > 0 && Positive(b.edges) && PositiveRows(rows)
    ensures var b' := EdgesUpserted(b, rows, size);
            && Positive(b'.edges)
            && (PeaksExact(b.edges, b.peaks) && PeaksFollow(b.edges, rows, size) ==> PeaksExact(b'.edges, b'.peaks))
  {
    hide SumEdges, ChunksUpserted, WriteAll, InTotals, BatchDrift, PositiveRows, Positive, PeaksExact, PeaksFollow;
    ChunksKeep(b, rows, size);
    WriteAllPositive(b.edges, rows);
    if PeaksExact(b.edges, b.peaks) && PeaksFollow(b.edges, rows, size) {
      ChunksPeaks(b, rows, size);
    }
  }
}
