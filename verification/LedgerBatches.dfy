/**
 * Which edge batches every figure follows, in conditions a caller can check before the call, and
 * batches of the tracer that the figures do not follow.
 */
module LedgerBatches {
  import opened Wrappers
  import opened LedgerTable
  import opened EdgeBatch
  import opened LedgerBook
  import opened LedgerEdges

  // ---- orderly batches ----------------------------------------------------------------------

  /** Each chunk is orderly against the table the last one left. */
  predicate OrderlyBatch(edges: Edges, rows: seq<EdgeRow>, size: nat)
    requires size > 0
    decreases |rows|
  {
    rows == [] ||
    (var n := Chunk(rows, size);
     Orderly(edges, rows[..n]) && OrderlyBatch(WriteAll(edges, rows[..n]), rows[n..], size))
  }

  /** No chunk writes a row again that counts for the sum. */
  ghost predicate KeptInChunks(rows: seq<EdgeRow>, size: nat, m: EdgeSum)
    requires size > 0
    decreases |rows|
  {
    rows == [] ||
    (var n := Chunk(rows, size);
     NoneOverwritten(rows[..n], n, m) && KeptInChunks(rows[n..], size, m))
  }

  /** Orderly batches do not drift unless a chunk overwrites its own rows; if one does, upwards. */
  lemma {:induction false} OrderlyBatchDrift(edges: Edges, rows: seq<EdgeRow>, size: nat, m: EdgeSum)
    requires size > 0 && OrderlyBatch(edges, rows, size)
    ensures var d := BatchDrift(edges, rows, size, m);
            && (KeptInChunks(rows, size, m) ==> d == 0)
            && (PositiveRows(rows) ==> d >= 0 && (d == 0 <==> KeptInChunks(rows, size, m)))
    decreases |rows|
  {
    hide WriteAll, Orderly, PositiveRows, NoneOverwritten, Drift;
    if rows != [] {
      var n := Chunk(rows, size);
      ChunksWritten(edges, rows, n);
      assert rows[..n][..n] == rows[..n];
      OrderlyDrift(edges, rows[..n], n, m);
      OrderlyBatchDrift(WriteAll(edges, rows[..n]), rows[n..], size, m);
    }
  }

  /** The sums follow an orderly batch if and only if no chunk overwrites a row that counts for them. */
  lemma OrderlyFollows(b: Book, rows: seq<EdgeRow>, size: nat)
    requires size > 0 && OrderlyBatch(b.edges, rows, size) && PositiveRows(rows)
    ensures TotalsFollow(b, rows, size) <==> forall a :: a in b.addresses ==> KeptInChunks(rows, size, InTo(a))
    ensures InboundFollows(b, rows, size) <==> forall a :: a in b.addresses ==> KeptInChunks(rows, size, OutTo(a))
    ensures Positive(b.edges) ==> (GrandTotalFollows(b.edges, rows, size) <==> KeptInChunks(rows, size, AllIn))
  {
    hide WriteAll, OrderlyBatch, KeptInChunks, PositiveRows, BatchDrift, SumEdges, Positive;
    forall m { OrderlyBatchDrift(b.edges, rows, size, m); }
    if Positive(b.edges) {
      WriteAllPositive(b.edges, rows);
      SumNonnegative(WriteAll(b.edges, rows), AllIn);
    }
  }

  // ---- valid batches ------------------------------------------------------------------------

  /** No key twice in a chunk, and one direction for each key. */
  predicate ValidBatch(edges: Edges, rows: seq<EdgeRow>, size: nat)
    requires size > 0
  {
    DistinctInChunks(rows, size) && OneDirection(rows) && Stable(edges, rows)
  }

  lemma NextChunk(edges: Edges, rows: seq<EdgeRow>, size: nat)
    requires size > 0 && rows != [] && ValidBatch(edges, rows, size)
    ensures var n := Chunk(rows, size);
            && DistinctKeys(rows[..n]) && Stable(edges, rows[..n])
            && ValidBatch(WriteAll(edges, rows[..n]), rows[n..], size)
  {
    hide WriteAll, DistinctKeys, Stable, OneDirection;
    StableAfterChunk(edges, rows, Chunk(rows, size));
  }

  /** Such a batch is orderly and overwrites nothing, so every sum and every peak follows it. */
  lemma {:induction false} ValidFollows(edges: Edges, rows: seq<EdgeRow>, size: nat)
    requires size > 0 && ValidBatch(edges, rows, size)
    ensures OrderlyBatch(edges, rows, size) && PeaksFollow(edges, rows, size)
    ensures forall m :: KeptInChunks(rows, size, m)
    decreases |rows|
  {
    hide WriteAll, DistinctKeys, Stable, ValidBatch, Orderly, NoneOverwritten, AllReached;
    if rows != [] {
      var n := Chunk(rows, size);
      NextChunk(edges, rows, size);
      DistinctReached(edges, rows[..n]);
      forall m { DistinctOrderly(edges, rows[..n], m); }
      ValidFollows(WriteAll(edges, rows[..n]), rows[n..], size);
    }
  }

  lemma ValidBatchFollows(b: Book, rows: seq<EdgeRow>, size: nat)
    requires size > 0 && ValidBatch(b.edges, rows, size)
    ensures TotalsFollow(b, rows, size) && InboundFollows(b, rows, size) && PeaksFollow(b.edges, rows, size)
    ensures Positive(b.edges) && PositiveRows(rows) ==> GrandTotalFollows(b.edges, rows, size)
  {
    hide WriteAll, OrderlyBatch, KeptInChunks, PositiveRows, BatchDrift, SumEdges, Positive, ValidBatch, PeaksFollow;
    ValidFollows(b.edges, rows, size);
    forall m ensures BatchDrift(b.edges, rows, size, m) == 0 {
      assert KeptInChunks(rows, size, m);
      OrderlyBatchDrift(b.edges, rows, size, m);
    }
    if Positive(b.edges) && PositiveRows(rows) {
      OrderlyFollows(b, rows, size);
    }
  }

  // ---- covered totals -----------------------------------------------------------------------

  lemma CoveredPositive(b: Book)
    requires Covered(b)
    ensures Positive(b.edges)
  {
  }

  lemma CoveredNoDebt(b: Book)
    requires Covered(b)
    ensures NoDebt(b.addresses)
  {
    hide SumEdges;
    forall a | a in b.addresses ensures b.addresses[a].total >= 0 {
      SumNonnegative(b.edges, InTo(a));
    }
  }

  lemma ExcessCovers(b: Book, b': Book, drift: EdgeSum -> int)
    requires Covered(b) && ExcessGrows(b, b', drift) && Positive(b'.edges) && forall m :: drift(m) >= 0
    ensures Covered(b')
  {
    hide SumEdges, Positive;
    assert forall a :: a in b'.addresses ==> a in b.addresses;
  }

  lemma CoveredChunk(b: Book, rows: seq<EdgeRow>)
    requires Covered(b) && Orderly(b.edges, rows) && PositiveRows(rows)
    ensures Covered(ChunkUpserted(b, rows))
  {
    hide Covered, Orderly, PositiveRows, ChunkUpserted, WriteAll, Drift, ExcessGrows, OldEdges;
    ChunkRows(b, rows);
    CoveredPositive(b);
    WriteAllPositive(b.edges, rows);
    assert rows[..|rows|] == rows;
    forall m { OrderlyDrift(b.edges, rows, |rows|, m); }
    ExcessCovers(b, ChunkUpserted(b, rows), m => ChunkDrift(b.edges, rows, m));
  }

  /** Totals that cover the edges go on covering them, and the hack statistics follow. */
  lemma {:induction false} CoveredFollows(b: Book, rows: seq<EdgeRow>, size: nat)
    requires size > 0 && OrderlyBatch(b.edges, rows, size) && PositiveRows(rows) && Covered(b) && HackStatsExact(b)
    ensures StatsFollow(b, rows, size) && Covered(ChunksUpserted(b, rows, size))
    decreases |rows|
  {
    hide Orderly, ChunkUpserted, WriteAll, PositiveRows, Covered, NoDebt, HackStatsExact, NotShort, NeverBelow,
         TotalDeltas, ExcessGrows, ChunkDrift;
    if rows != [] {
      var n := Chunk(rows, size);
      var b1 := ChunkUpserted(b, rows[..n]);
      ChunksWritten(b.edges, rows, n);
      ChunkRows(b, rows[..n]);
      CoveredChunk(b, rows[..n]);
      CoveredNoDebt(b);
      CoveredNoDebt(b1);
      NoDebtAbove(b);
      ExactNotShort(b);
      ChunkKeeps(b, rows[..n]);
      CoveredFollows(b1, rows[n..], size);
    }
  }

  // ---- chunks of new keys -------------------------------------------------------------------

  predicate NewKeys(edges: Edges, rows: seq<EdgeRow>) {
    forall i :: 0 <= i < |rows| ==> rows[i].key !in edges
  }

  /**
   * A chunk of new keys with positive amounts: each sum stays exact if and only if no row that
   * counts for it is written again, and the peaks if and only if an edge reaches each incoming row.
   */
  lemma NewChunkExact(b: Book, rows: seq<EdgeRow>, size: nat)
    requires 0 < |rows| <= size && NewKeys(b.edges, rows) && PositiveRows(rows) && Positive(b.edges)
    ensures var b' := EdgesUpserted(b, rows, size);
            && (GrandTotalExact(b) ==> (GrandTotalExact(b') <==> NoneOverwritten(rows, |rows|, AllIn)))
            && (TotalsExact(b) ==>
                  (TotalsExact(b') <==> forall a :: a in b.addresses ==> NoneOverwritten(rows, |rows|, InTo(a))))
            && (InboundExact(b) ==>
                  (InboundExact(b') <==> forall a :: a in b.addresses ==> NoneOverwritten(rows, |rows|, OutTo(a))))
            && (PeaksExact(b.edges, b.peaks) ==> (PeaksExact(b'.edges, b'.peaks) <==> AllReached(b'.edges, rows)))
  {
    hide GrandTotalExact, TotalsExact, InboundExact, PeaksExact, TotalsFollow, InboundFollows, GrandTotalFollows,
         PositiveRows, Positive, AllReached, NoneOverwritten, ChunkUpserted;
    OneChunk(b, rows, size);
    NewKeysOrderly(b.edges, rows);
    forall m { OneChunkKept(rows, size, m); }
    OrderlyFollows(b, rows, size);
    BatchKeeps(b, rows, size);
    ChunkRows(b, rows);
    if PeaksExact(b.edges, b.peaks) {
      ChunkPeaks(b, rows);
    }
  }

  lemma OneChunk(b: Book, rows: seq<EdgeRow>, size: nat)
    requires 0 < |rows| <= size
    ensures ChunksUpserted(b, rows, size) == ChunkUpserted(b, rows)
    ensures Orderly(b.edges, rows) ==> OrderlyBatch(b.edges, rows, size)
  {
    hide ChunkUpserted, Orderly, WriteAll;
    assert rows[..|rows|] == rows && rows[|rows|..] == [];
  }

  lemma OneChunkKept(rows: seq<EdgeRow>, size: nat, m: EdgeSum)
    requires 0 < |rows| <= size
    ensures KeptInChunks(rows, size, m) <==> NoneOverwritten(rows, |rows|, m)
  {
    hide NoneOverwritten;
    assert rows[..|rows|] == rows && rows[|rows|..] == [];
  }

  lemma NewKeysOrderly(edges: Edges, rows: seq<EdgeRow>)
    requires NewKeys(edges, rows) && PositiveRows(rows)
    ensures Stable(edges, rows) && Orderly(edges, rows) && NoneLowered(edges, rows)
  {
  }

  // ---- one payment, both ways ---------------------------------------------------------------

  /** The key of a payment by a downstream address to a hacker. */
  const PAYMENT := EdgeKey("spender", "hacker", "txid")

  /** computeHackTraceEdges gives that payment as an incoming edge and as an outgoing one. */
  function BothWays(): seq<EdgeRow> {
    [EdgeRow(PAYMENT, Edge(5, InToHacker)), EdgeRow(PAYMENT, Edge(20, OutFromHacker))]
  }

  /** A flagged hacker without edges, and exact figures. */
  function NewHacker(): Book {
    Book(map["hacker" := Address("coldcard", true, 0, 0)], map[], map[], map[], 0, 0, map[])
  }

  /** After the payment has been traced: the edge left is the outgoing one, yet the incoming amount counts. */
  function TracedOnce(): Book {
    Book(map["hacker" := Address("coldcard", true, 5, 20)], map[PAYMENT := Edge(20, OutFromHacker)],
         map["coldcard" := 1], map["coldcard" := 5], 1, 5, map[("hacker", "spender") := 5])
  }

  /** After it has been traced again: the outgoing amount has been taken back from the total. */
  function TracedTwice(): Book {
    Book(map["hacker" := Address("coldcard", true, -10, 20)], map[PAYMENT := Edge(20, OutFromHacker)],
         map["coldcard" := 0], map["coldcard" := 0], 0, 0, map[])
  }

  lemma FirstRow()
    ensures var rows := BothWays();
            |rows| == 2 && rows[..1] == [rows[0]] && rows[..1][..0] == []
  {
  }

  lemma BothWaysWritten(edges: Edges)
    ensures WriteAll(edges, BothWays()) == edges[PAYMENT := Edge(20, OutFromHacker)]
  {
    FirstRow();
    assert WriteAll(edges, BothWays()[..1]) == edges[PAYMENT := Edge(5, InToHacker)];
  }

  /** The deltas of the two rows, when the old amount is neither 5 nor 20, or is 20. */
  lemma BothWaysDeltas(seen: Edges)
    requires OldAmount(seen, PAYMENT) != 5
    ensures var rows, was := BothWays(), OldAmount(seen, PAYMENT);
            && Collected(rows, seen, InToHacker) == [("hacker", 5 - was)]
            && Collected(rows, seen, OutFromHacker) == (if was != 20 then [("hacker", 20 - was)] else [])
            && InTotal(rows, seen) == 5 - was
  {
    hide OldAmount;
    FirstRow();
    var rows, was := BothWays(), OldAmount(seen, PAYMENT);
    assert Collected(rows[..1], seen, InToHacker) == [("hacker", 5 - was)];
    assert Collected(rows[..1], seen, OutFromHacker) == [];
    assert InTotal(rows[..1], seen) == 5 - was;
  }

  /** What a batch of the two rows does. */
  lemma BothWaysStep(b: Book)
    requires OldAmount(OldEdges(b.edges, BothWays()), PAYMENT) != 5
    ensures var was := OldAmount(OldEdges(b.edges, BothWays()), PAYMENT);
            var moved := TotalMoved(b.(edges := b.edges[PAYMENT := Edge(20, OutFromHacker)]), "hacker", 5 - was);
            EdgesUpserted(b, BothWays(), 2)
            == moved.(addresses := InboundMoved(moved.addresses, "hacker", 20 - was),
                      peaks := PeakMoved(moved.edges, moved.peaks, ("hacker", "spender"), 5, was),
                      totalIn := Max(0, b.totalIn + 5 - was))
  {
    hide OldEdges, OldAmount, TotalMoved, PeakMoved, WriteAll, Collected, InTotal;
    var rows, seen := BothWays(), OldEdges(b.edges, BothWays());
    FirstRow();
    BothWaysWritten(b.edges);
    BothWaysDeltas(seen);
    OneChunk(b, rows, 2);
    assert rows[..2] == rows && rows[2..] == [];
    OneDelta(b.(edges := WriteAll(b.edges, rows)), "hacker", 5 - OldAmount(seen, PAYMENT));
    OneInbound(TotalsMoved(b.(edges := WriteAll(b.edges, rows)), Collected(rows, seen, InToHacker)).addresses, "hacker",
               20 - OldAmount(seen, PAYMENT));
    var moved := TotalsMoved(b.(edges := WriteAll(b.edges, rows)), Collected(rows, seen, InToHacker));
    TotalMovedEdges(b.(edges := WriteAll(b.edges, rows)), "hacker", 5 - OldAmount(seen, PAYMENT));
    assert PeaksMoved(moved.edges, moved.peaks, rows[..1], seen)
      == PeakMoved(moved.edges, moved.peaks, ("hacker", "spender"), 5, OldAmount(seen, PAYMENT));
  }

  lemma OneDelta(b: Book, a: string, delta: int)
    ensures TotalsMoved(b, [(a, delta)]) == TotalMoved(b, a, delta)
  {
    assert [(a, delta)][..0] == [];
  }

  lemma OneInbound(addresses: Addresses, a: string, delta: int)
    ensures InboundsMoved(addresses, [(a, delta)]) == InboundMoved(addresses, a, delta)
  {
    assert [(a, delta)][..0] == [];
  }

  lemma TotalMovedEdges(b: Book, a: string, delta: int)
    ensures TotalMoved(b, a, delta).edges == b.edges && TotalMoved(b, a, delta).totalIn == b.totalIn
  {
  }

  lemma OutgoingAlone(m: EdgeSum)
    ensures SumEdges(map[], m) == 0
    ensures SumEdges(map[PAYMENT := Edge(20, OutFromHacker)], m) == if m == OutTo("hacker") then 20 else 0
  {
    var none: Edges := map[];
    SumZero(none, m);
    SumPut(none, PAYMENT, Edge(20, OutFromHacker), m);
    assert none[PAYMENT := Edge(20, OutFromHacker)] == map[PAYMENT := Edge(20, OutFromHacker)];
  }

  /** The statistics of a store with the hacker alone. */
  lemma HackerAlone(b: Book)
    requires b.addresses.Keys == {"hacker"} && b.addresses["hacker"].flagged
             && b.addresses["hacker"].hackId == "coldcard"
    ensures var total := b.addresses["hacker"].total;
            HackStatsExact(b) <==>
              forall h :: Figure(b.hackerCount, h) == (if h == "coldcard" && total > 0 then 1 else 0)
                          && Figure(b.totalInByHack, h) == (if h == "coldcard" then total else 0)
  {
    hide SumAddresses;
    var none: Addresses, row := map[], b.addresses["hacker"];
    assert b.addresses == none["hacker" := row];
    forall h
      ensures SumAddresses(b.addresses, Hackers(h)) == AddressWeight(Hackers(h), row)
      ensures SumAddresses(b.addresses, Sats(h)) == AddressWeight(Sats(h), row)
    {
      NoAddresses(Hackers(h));
      NoAddresses(Sats(h));
      AddressPut(none, "hacker", row, Hackers(h));
      AddressPut(none, "hacker", row, Sats(h));
    }
  }

  lemma NoAddresses(m: AddressSum)
    ensures SumAddresses(map[], m) == 0
  {
  }

  /** From exact figures, the batch leaves grand total, total and peak with an incoming payment that is gone. */
  lemma BothWaysMissed()
    ensures var b, b' := NewHacker(), EdgesUpserted(NewHacker(), BothWays(), 2);
            && HackStatsExact(b) && TotalsExact(b) && InboundExact(b) && GrandTotalExact(b)
            && PeaksExact(b.edges, b.peaks)
            && b' == TracedOnce() && HackStatsExact(b') && InboundExact(b')
            && !GrandTotalExact(b') && !TotalsExact(b') && !PeaksExact(b'.edges, b'.peaks)
  {
    hide SumEdges, StatsExact, EdgesUpserted, OldEdges, Largest, IsMax;
    FirstTrace();
    forall m { OutgoingAlone(m); }
    HackerAlone(NewHacker());
    HackerAlone(TracedOnce());
    PeakGone();
  }

  lemma FirstTrace()
    ensures EdgesUpserted(NewHacker(), BothWays(), 2) == TracedOnce()
  {
    hide EdgesUpserted, Largest;
    BothWaysStep(NewHacker());
  }

  lemma PeakGone()
    ensures !PeaksExact(TracedOnce().edges, TracedOnce().peaks) && PeaksExact(NewHacker().edges, NewHacker().peaks)
  {
    assert ("hacker", "spender") in TracedOnce().peaks;
    assert !IsMax(TracedOnce().edges, ("hacker", "spender"), 5);
  }

  /** The payment's edge is outgoing by now; the outgoing row makes the query read it for both rows. */
  lemma ReadAgain()
    ensures OldAmount(OldEdges(TracedOnce().edges, BothWays()), PAYMENT) == 20
  {
    hide Tracked;
    assert BothWays()[1] in Tracked(BothWays());
  }

  lemma SecondTotal()
    ensures TotalMoved(TracedOnce(), "hacker", -15) == TracedTwice().(totalIn := 5, peaks := TracedOnce().peaks)
  {
  }

  lemma SecondPeak()
    ensures PeakMoved(TracedTwice().edges, TracedOnce().peaks, ("hacker", "spender"), 5, 20) == map[]
  {
    assert !AnyEdge(TracedTwice().edges, ("hacker", "spender"));
  }

  lemma SecondTrace()
    ensures EdgesUpserted(TracedOnce(), BothWays(), 2) == TracedTwice()
  {
    hide EdgesUpserted, OldEdges, BothWays, OldAmount, PeakMoved, TotalMoved;
    ReadAgain();
    BothWaysStep(TracedOnce());
    var once := TracedOnce();
    assert once.(edges := once.edges[PAYMENT := Edge(20, OutFromHacker)]) == once;
    SecondTotal();
    SecondPeak();
  }

  /** Tracing it again takes the total below zero, and then the hack statistics are upset too. */
  lemma TracedAgainUpsets()
    ensures HackStatsExact(TracedOnce())
    ensures EdgesUpserted(TracedOnce(), BothWays(), 2) == TracedTwice() && !HackStatsExact(TracedTwice())
  {
    hide StatsExact, EdgesUpserted;
    SecondTrace();
    HackerAlone(TracedOnce());
    HackerAlone(TracedTwice());
    assert Figure(TracedTwice().totalInByHack, "coldcard") == 0;
  }
}
