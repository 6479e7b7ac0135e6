/** What recalculations and deletions keep exact, and when they do not. */
module LedgerRepairs {
  import opened Wrappers
  import opened LedgerTable
  import opened HackStats
  import opened EdgeBatch
  import opened LedgerBook
  import opened LedgerSteps
  import opened LedgerEdges

  // ---- recalculations -----------------------------------------------------------------------

  predicate ActivityKept(b: Book, b': Book, a: string) {
    a in b.addresses && a in b'.addresses ==> IsActive(b'.addresses[a]) == IsActive(b.addresses[a])
  }

  /**
   * recalcTotalReceived: exact for the hack statistics from any total, however far off, unless
   * the loss takes the sats of the hack below zero.
   */
  lemma RecalcKeeps(b: Book, a: string)
    ensures var b' := Recalculated(b, a);
            && b'.edges == b.edges
            && (a in b.addresses ==> a in b'.addresses && b'.addresses[a].total == SumEdges(b.edges, InTo(a)))
            && (HackStatsExact(b) && AboveZero(b) ==>
                  AboveZero(b') && (HackStatsExact(b') <==> !RepairOverdraws(b, a)))
            && (HackStatsExact(b) && NoDebt(b.addresses) && Positive(b.edges) ==>
                  NoDebt(b'.addresses) && !RepairOverdraws(b, a))
            && (ActiveExact(b) ==> (ActiveExact(b') <==> ActivityKept(b, b', a)))
            && (TotalsExact(b) ==> b' == b)
            && (InboundExact(b') <==> InboundExact(b))
            && (Covered(b) ==> Covered(b'))
  {
    hide SumAddresses, SumEdges, StatsExact, TotalCountStep, TotalSatsStep, RepairOverdraws, Nonnegative;
    if HackStatsExact(b) {
      RecalcStats(b, a);
    }
    if a in b.addresses {
      var before, total := b.addresses[a], SumEdges(b.edges, InTo(a));
      var b' := Recalculated(b, a);
      if ActiveExact(b) {
        ActiveStep(b.addresses, a, before.(total := total), b.hackerActive);
        AddressShare(b.addresses, ActiveHackers);
      }
      if TotalsExact(b) {
        SameTotal(b, a);
      }
      assert forall x :: x in b.addresses <==> x in b'.addresses;
      assert forall x :: x in b.addresses && x != a ==> b'.addresses[x] == b.addresses[x];
    }
  }

  /** The repair would take the sats of the address's hack below zero. */
  ghost predicate RepairOverdraws(b: Book, a: string) {
    a in b.addresses && Overdraws(b.addresses[a], SumEdges(b.edges, InTo(a)), b.totalInByHack)
  }

  lemma RecalcStats(b: Book, a: string)
    requires HackStatsExact(b)
    ensures var b' := Recalculated(b, a);
            && (AboveZero(b) ==> AboveZero(b') && (HackStatsExact(b') <==> !RepairOverdraws(b, a)))
            && (NoDebt(b.addresses) && Positive(b.edges) ==> NoDebt(b'.addresses) && !RepairOverdraws(b, a))
  {
    hide SumAddresses, SumEdges, StatsExact, TotalCountStep, TotalSatsStep, Overdraws, Nonnegative, Positive, NoLess;
    if a in b.addresses {
      var total := SumEdges(b.edges, InTo(a));
      if AboveZero(b) {
        ExactIsNoLess(b.addresses, b.hackerCount, b.totalInByHack);
        TotalStepNoLess(b.addresses, a, total, b.hackerCount, b.totalInByHack);
        TotalStepExact(b.addresses, a, total, b.hackerCount, b.totalInByHack);
        FiguresAboveZero(Recalculated(b, a));
      }
      if NoDebt(b.addresses) && Positive(b.edges) {
        SumNonnegative(b.edges, InTo(a));
        StatsParts(b);
        NoOverdraft(b.addresses, a, total, b.totalInByHack);
      }
    }
  }

  lemma SameTotal(b: Book, a: string)
    requires a in b.addresses
    ensures Retotalled(b, a, b.addresses[a].total) == b
  {
    var row := b.addresses[a];
    assert row.(total := row.total) == row;
    assert b.addresses[a := row] == b.addresses;
  }

  /** recalcInboundSats repairs one inbound sum and touches nothing else. */
  lemma RecalcInboundKeeps(b: Book, a: string)
    ensures var b' := InboundRecalculated(b, a);
            && b'.edges == b.edges
            && (a in b.addresses ==> a in b'.addresses && b'.addresses[a].inbound == SumEdges(b.edges, OutTo(a)))
            && (HackStatsExact(b') <==> HackStatsExact(b)) && (ActiveExact(b') <==> ActiveExact(b))
            && (AboveZero(b') <==> AboveZero(b)) && (NoDebt(b'.addresses) <==> NoDebt(b.addresses))
            && (TotalsExact(b') <==> TotalsExact(b)) && (InboundExact(b) ==> InboundExact(b'))
            && (Covered(b') <==> Covered(b))
  {
    hide SumEdges, StatsExact, SumAddresses;
    var b' := InboundRecalculated(b, a);
    InboundLeavesStats(b, b');
    assert forall x :: x in b.addresses <==> x in b'.addresses;
    assert forall x :: x in b.addresses ==> b'.addresses[x].total == b.addresses[x].total;
  }

  // ---- deletions ----------------------------------------------------------------------------

  ghost predicate AnyIncoming(edges: Edges, gone: set<EdgeKey>) {
    exists k :: k in gone && k in edges && edges[k].direction.InToHacker?
  }

  /** An incoming edge of an address that has a row. */
  ghost predicate AnyCounted(b: Book, gone: set<EdgeKey>) {
    exists k :: k in gone && k in b.edges && b.edges[k].direction.InToHacker? && k.to in b.addresses
  }

  /** Deleting an edge that counts lowers a sum. */
  lemma SumLost(edges: Edges, gone: set<EdgeKey>, k: EdgeKey, m: EdgeSum)
    requires Positive(edges) && gone <= edges.Keys && k in gone && EdgeWeight(m, k, edges[k]) > 0
    ensures SumEdges(edges - gone, m) < SumEdges(edges, m)
  {
    hide SumEdges, EdgeWeight;
    SumRemove(edges, k, m);
    SumKept(edges - {k}, gone - {k}, m);
    assert edges - {k} - (gone - {k}) == edges - gone;
  }

  /** The figures that no deletion updates: exact if no incoming edge goes, and only then. */
  lemma Deleted(b: Book, gone: set<EdgeKey>, b': Book)
    requires gone <= b.edges.Keys && b'.edges == b.edges - gone && b'.totalIn == b.totalIn
    requires b'.addresses.Keys == b.addresses.Keys
    requires forall x :: x in b.addresses ==> b'.addresses[x] == b.addresses[x].(inbound := b'.addresses[x].inbound)
    requires b'.hackerCount == b.hackerCount && b'.totalInByHack == b.totalInByHack && b'.hackerActive == b.hackerActive
    ensures (Positive(b.edges) ==> Positive(b'.edges)) && (Covered(b) ==> Covered(b'))
    ensures (NoDebt(b'.addresses) <==> NoDebt(b.addresses)) && (AboveZero(b') <==> AboveZero(b))
    ensures (HackStatsExact(b') <==> HackStatsExact(b)) && (ActiveExact(b') <==> ActiveExact(b))
    ensures GrandTotalExact(b) && !AnyIncoming(b.edges, gone) ==> GrandTotalExact(b')
    ensures GrandTotalExact(b) && Positive(b.edges) ==> (GrandTotalExact(b') <==> !AnyIncoming(b.edges, gone))
  {
    hide SumEdges, StatsExact, SumAddresses, Nonnegative;
    InboundLeavesStats(b, b');
    if k :| k in gone && k in b.edges && b.edges[k].direction.InToHacker? {
      if Positive(b.edges) {
        SumLost(b.edges, gone, k, AllIn);
      }
    } else {
      SumKept(b.edges, gone, AllIn);
    }
    assert forall x :: x in b.addresses <==> x in b'.addresses;
    forall a ensures Positive(b.edges) ==> SumEdges(b'.edges, InTo(a)) <= SumEdges(b.edges, InTo(a)) {
      SumKept(b.edges, gone, InTo(a));
    }
  }

  lemma DeletedTotals(b: Book, gone: set<EdgeKey>, b': Book)
    requires gone <= b.edges.Keys && b'.edges == b.edges - gone
    requires b'.addresses.Keys == b.addresses.Keys
    requires forall x :: x in b.addresses ==> b'.addresses[x].total == b.addresses[x].total
    ensures TotalsExact(b) && !AnyCounted(b, gone) ==> TotalsExact(b')
    ensures TotalsExact(b) && Positive(b.edges) ==> (TotalsExact(b') <==> !AnyCounted(b, gone))
  {
    hide SumEdges, Positive;
    assert forall x :: x in b.addresses <==> x in b'.addresses;
    if k :| k in gone && k in b.edges && b.edges[k].direction.InToHacker? && k.to in b.addresses {
      if TotalsExact(b) && Positive(b.edges) {
        PositiveAt(b.edges, k);
        SumLost(b.edges, gone, k, InTo(k.to));
        assert b'.addresses[k.to].total != SumEdges(b'.edges, InTo(k.to));
      }
    } else {
      forall a | a in b'.addresses ensures SumEdges(b'.edges, InTo(a)) == SumEdges(b.edges, InTo(a)) {
        SumKept(b.edges, gone, InTo(a));
      }
    }
  }

  lemma PositiveAt(edges: Edges, k: EdgeKey)
    requires Positive(edges) && k in edges && !edges[k].direction.OtherDirection?
    ensures edges[k].amount > 0
  {
  }

  /** A pair whose edges go or stay together. */
  ghost predicate Whole(edges: Edges, gone: set<EdgeKey>) {
    forall k, k' ::
      (k in gone && k in edges && k' in edges && edges[k].direction.InToHacker? && edges[k'].direction.InToHacker?
       && k.to == k'.to && k.from == k'.from) ==> k' in gone
  }

  /** No deletion updates the peaks: they stay exact if and only if no incoming edge goes. */
  lemma DeletedPeaks(edges: Edges, gone: set<EdgeKey>, peaks: Peaks)
    requires PeaksExact(edges, peaks) && Whole(edges, gone)
    ensures PeaksExact(edges - gone, peaks) <==> !AnyIncoming(edges, gone)
  {
    var after := edges - gone;
    if k :| k in gone && k in edges && edges[k].direction.InToHacker? {
      var pair := (k.to, k.from);
      assert PairEdge(edges, pair, k) && pair in peaks;
      assert !IsMax(after, pair, peaks[pair]);
    } else {
      forall pair | pair in peaks ensures IsMax(after, pair, peaks[pair]) {
        var k :| PairEdge(edges, pair, k) && edges[k].amount == peaks[pair];
        assert PairEdge(after, pair, k);
        assert forall k' :: PairEdge(after, pair, k') ==> PairEdge(edges, pair, k');
      }
      assert forall pair, k' :: PairEdge(after, pair, k') ==> PairEdge(edges, pair, k');
    }
  }

  /** The keys an address takes with it. */
  function Gone(edges: Edges, address: string): set<EdgeKey> {
    set k | k in edges && Touches(k, address)
  }

  /** What a deletion does to the figures it does not update. */
  ghost predicate DeletionKeeps(b: Book, gone: set<EdgeKey>, b': Book) {
    && (Positive(b.edges) ==> Positive(b'.edges)) && (Covered(b) ==> Covered(b'))
    && (NoDebt(b'.addresses) <==> NoDebt(b.addresses)) && (AboveZero(b') <==> AboveZero(b))
    && (HackStatsExact(b') <==> HackStatsExact(b)) && (ActiveExact(b') <==> ActiveExact(b))
    && (GrandTotalExact(b) && !AnyIncoming(b.edges, gone) ==> GrandTotalExact(b'))
    && (GrandTotalExact(b) && Positive(b.edges) ==> (GrandTotalExact(b') <==> !AnyIncoming(b.edges, gone)))
    && (TotalsExact(b) && !AnyCounted(b, gone) ==> TotalsExact(b'))
    && (TotalsExact(b) && Positive(b.edges) ==> (TotalsExact(b') <==> !AnyCounted(b, gone)))
    && (PeaksExact(b.edges, b.peaks) ==> (PeaksExact(b'.edges, b'.peaks) <==> !AnyIncoming(b.edges, gone)))
  }

  /** deleteEdgesTouchingAddress: recounting the targets that lose an edge keeps all inbound sums. */
  lemma DeleteTouchingKeeps(b: Book, address: string)
    ensures var b' := EdgesDeleted(b, address);
            DeletionKeeps(b, Gone(b.edges, address), b') && (InboundExact(b) ==> InboundExact(b'))
  {
    hide SumEdges, StatsExact, SumAddresses, PeaksExact, Covered, TotalsExact, NoDebt, Positive, AnyIncoming,
         AnyCounted, Nonnegative;
    var b', gone := EdgesDeleted(b, address), Gone(b.edges, address);
    assert b'.edges == b.edges - gone;
    Deleted(b, gone, b');
    DeletedTotals(b, gone, b');
    assert forall x :: x in b.addresses <==> x in b'.addresses;
    forall a | a !in Losers(b.edges, address) ensures SumEdges(b'.edges, OutTo(a)) == SumEdges(b.edges, OutTo(a)) {
      SumKept(b.edges, gone, OutTo(a));
    }
    if PeaksExact(b.edges, b.peaks) {
      DeletedPeaks(b.edges, gone, b.peaks);
    }
  }

  function Traced(edges: Edges): set<EdgeKey> {
    set k | k in edges && !edges[k].direction.OtherDirection?
  }

  /** deleteHackTraceEdges: inbound sums of zero are exact afterwards, whatever they were. */
  lemma DeleteTraceKeeps(b: Book)
    ensures var b' := TraceDeleted(b);
            DeletionKeeps(b, Traced(b.edges), b') && InboundExact(b')
  {
    hide SumEdges, StatsExact, SumAddresses, PeaksExact, Covered, TotalsExact, NoDebt, Positive, AnyIncoming,
         AnyCounted, Nonnegative;
    var b', gone := TraceDeleted(b), Traced(b.edges);
    assert b'.edges == b.edges - gone;
    Deleted(b, gone, b');
    DeletedTotals(b, gone, b');
    forall a ensures SumEdges(b'.edges, OutTo(a)) == 0 {
      SumZero(b'.edges, OutTo(a));
    }
    if PeaksExact(b.edges, b.peaks) {
      DeletedPeaks(b.edges, gone, b.peaks);
    }
  }

  // ---- examples -----------------------------------------------------------------------------

  /** One active hacker of a hack, with figures to match. */
  function OneHacker(hackId: string, total: nat): Book {
    Book(map["a" := Address(hackId, true, total, 0)], map[], map[hackId := 1], map[hackId := total], 1, 0, map[])
  }

  lemma OneHackerExact(hackId: string, total: nat)
    requires total > 0
    ensures HackStatsExact(OneHacker(hackId, total)) && ActiveExact(OneHacker(hackId, total))
    ensures NoDebt(OneHacker(hackId, total).addresses)
  {
    hide SumAddresses;
    var row := Address(hackId, true, total, 0);
    var b := OneHacker(hackId, total);
    forall m ensures SumAddresses(b.addresses, m) == AddressWeight(m, row) {
      AloneWeighs(row, m);
    }
    assert IsActive(row);
    forall h
      ensures Figure(b.hackerCount, h) == SumAddresses(b.addresses, Hackers(h))
      ensures Figure(b.totalInByHack, h) == SumAddresses(b.addresses, Sats(h))
    {
    }
  }

  lemma AloneWeighs(row: Address, m: AddressSum)
    ensures SumAddresses(map["a" := row], m) == AddressWeight(m, row)
  {
    var none: Addresses := map[];
    AddressPut(none, "a", row, m);
    assert none["a" := row] == map["a" := row];
    assert AddressWeights(none, m) == map[];
  }

  /** An overwritten total is missed: the hack goes on with the old sats. */
  lemma OverwriteMissed()
    ensures var b, data := OneHacker("coldcard", 5), Upsert("a", None, None, Some(7));
            && HackStatsExact(b) && NoDebt(b.addresses)
            && Misses(b.addresses, Row(b.addresses, "a"), Merged(Row(b.addresses, "a"), data))
            && !HackStatsExact(Upserted(b, data))
  {
    hide StatsExact, SumAddresses, CountStep, SatsStep;
    var b, data := OneHacker("coldcard", 5), Upsert("a", None, None, Some(7));
    OneHackerExact("coldcard", 5);
    UpsertKeeps(b, data);
    assert Upserted(b, data).addresses["a"] == Merged(Row(b.addresses, "a"), data);
  }

  /** A hacker that becomes active while it moves is counted twice under its new hack. */
  lemma MoveMissed()
    ensures var idle := Book(map["a" := Address("coldcard", true, 0, 0)], map[], map[], map[], 0, 0, map[]);
            var data := Upsert("a", Some("other"), None, Some(7));
            && HackStatsExact(idle) && !HackStatsExact(Upserted(idle, data))
            && Figure(Upserted(idle, data).hackerCount, "other") == 2
  {
    hide SumAddresses;
    var row := Address("coldcard", true, 0, 0);
    var idle := Book(map["a" := row], map[], map[], map[], 0, 0, map[]);
    var data := Upsert("a", Some("other"), None, Some(7));
    forall h
      ensures Figure(idle.hackerCount, h) == SumAddresses(idle.addresses, Hackers(h))
      ensures Figure(idle.totalInByHack, h) == SumAddresses(idle.addresses, Sats(h))
    {
      AloneWeighs(row, Hackers(h));
      AloneWeighs(row, Sats(h));
    }
    assert HackStatsExact(idle);
    UpsertKeeps(idle, data);
    assert Upserted(idle, data).addresses["a"] == Merged(Row(idle.addresses, "a"), data);
  }

  /** A repair that finds no edges makes the address inactive, but not the count. */
  lemma RepairLeavesCount()
    ensures var b := OneHacker("coldcard", 5);
            ActiveExact(b) && !ActiveExact(Recalculated(b, "a"))
  {
    hide SumAddresses;
    var b := OneHacker("coldcard", 5);
    OneHackerExact("coldcard", 5);
    SumZero(b.edges, InTo("a"));
    RecalcKeeps(b, "a");
  }

  /** Two active hackers of one hack, with figures to match. */
  function TwoHackers(x: nat, y: nat): Book {
    Book(map["a" := Address("coldcard", true, x, 0), "b" := Address("coldcard", true, y, 0)], map[],
         map["coldcard" := 2], map["coldcard" := x + y], 2, 0, map[])
  }

  lemma TwoHackersExact(x: nat, y: nat)
    requires x > 0 && y > 0
    ensures HackStatsExact(TwoHackers(x, y))
  {
    hide SumAddresses;
    var b := TwoHackers(x, y);
    var one: Addresses := map["a" := b.addresses["a"]];
    assert b.addresses == one["b" := b.addresses["b"]];
    forall h
      ensures Figure(b.hackerCount, h) == SumAddresses(b.addresses, Hackers(h))
      ensures Figure(b.totalInByHack, h) == SumAddresses(b.addresses, Sats(h))
    {
      AloneWeighs(b.addresses["a"], Hackers(h));
      AloneWeighs(b.addresses["a"], Sats(h));
      AddressPut(one, "b", b.addresses["b"], Hackers(h));
      AddressPut(one, "b", b.addresses["b"], Sats(h));
    }
  }

  /** In a batch, two overwritten totals can make up for each other. */
  lemma MissesCompensate()
    ensures var b, rows := TwoHackers(5, 9), [Upsert("a", None, None, Some(7)), Upsert("b", None, None, Some(7))];
            && HackStatsExact(b) && HackStatsExact(UpsertedMany(b, rows)) && !BatchHarmless(b.addresses, rows)
  {
    hide StatsExact, SumAddresses;
    var b, rows := TwoHackers(5, 9), [Upsert("a", None, None, Some(7)), Upsert("b", None, None, Some(7))];
    TwoHackersExact(5, 9);
    TwoHackersExact(7, 7);
    assert rows[..1] == [rows[0]] && rows[..1][..0] == [];
    assert PutAllMerged(b.addresses, rows[..1]) == PutMerged(b.addresses, rows[0]);
    assert PutAllMerged(b.addresses, rows) == TwoHackers(7, 7).addresses;
    assert UpsertedMany(b, rows) == TwoHackers(7, 7);
    assert Misses(Partly(b.addresses, TwoHackers(7, 7).addresses, {}), Row(b.addresses, "b"),
                  Address("coldcard", true, 7, 0));
  }
}
